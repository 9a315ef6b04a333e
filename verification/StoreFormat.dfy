/** The byte layout of one credential-store slot: the packed payload, the encrypting wrap around it and the
    header that authenticates both. */
module StoreFormat {
  import opened Bits
  import opened Words
  import opened NorFlash

  datatype Option<+T> = None | Some(value: T)

  const STORE_MAGIC: u32 := 0x4d4b_5331
  const STORE_VERSION: u32 := 6
  const WRAP_MAGIC: u32 := 0x4d4b_5731
  const WRAP_FLAG_PAYLOAD_ENCRYPTED: byte := 1
  const UP_PROVENANCE_MAGIC: byte := 0xa5
  const UP_PROVENANCE_FLAG_VALID: byte := 0x80
  const UP_PROVENANCE_FLAG_DEBUG_HID: byte := 0x01
  const PIN_RETRIES_DEFAULT: byte := 8
  const HEADER_SIZE: nat := 64
  const FIXED_SIZE: nat := 32
  const SLOT_SIZE: nat := 432

  type Bytes16 = s: seq<byte> | |s| == 16 witness seq(16, i => 0)

  type Bytes32 = s: seq<byte> | |s| == 32 witness seq(32, i => 0)

  datatype UpConfig = UpConfig(
    source: byte, gpioPin: byte, gpioActiveLow: byte, tapCount: byte, gestureWindowMs: u16, requestTimeoutMs: u16)

  /** store_user_presence_config_is_valid; the pin is an int8_t, so a negative pin reads as a byte above 127. */
  predicate UpConfigValid(c: UpConfig) {
    && c.source <= 2
    && (c.source == 2 ==> c.gpioPin <= 47)
    && 1 <= c.tapCount <= 4
    && 100 <= c.gestureWindowMs <= 5000
    && 500 <= c.requestTimeoutMs <= 30000
  }

  /** The build configuration and the cryptography of one board. The functions are arbitrary: nothing is
      assumed about CRC-32, the authentication tag or the key stream beyond being functions. */
  datatype PlatformData = PlatformData(
    slotSectors: nat,
    maxCredentials: nat,
    debugHid: bool,
    defaultUp: UpConfig,
    crc: seq<byte> -> u32,
    tag: (Bytes16, seq<byte>) -> Bytes16,
    keystream: (Bytes16, nat) -> byte)
  {
    function ImageSize(): nat { SECTOR * slotSectors }

    function TailSize(): nat
      requires Valid()
    {
      ImageSize() - HEADER_SIZE - FIXED_SIZE - SLOT_SIZE * maxCredentials
    }

    predicate Valid() {
      && 1 <= slotSectors
      && 1 <= maxCredentials <= 0x1_0000
      && HEADER_SIZE + FIXED_SIZE + SLOT_SIZE * maxCredentials <= ImageSize() < 0x1_0000_0000
      && UpConfigValid(defaultUp)
    }
  }

  /** The default build: 16 flash sectors, 7 per slot, room for 66 credentials, BOOTSEL double tap. */
  ghost const DEFAULT_PLATFORM := PlatformData(
    7, 66, false, UpConfig(1, 255, 1, 2, 750, 8000), s => 0, (salt, s) => seq(16, i => 0), (salt, i) => 0)

  type Platform = p: PlatformData | p.Valid() ghost witness DEFAULT_PLATFORM

  // ---- Packed records ----

  datatype Slot = Slot(
    inUse: byte, discoverable: byte, credRandomReady: byte, credentialIdLength: byte, privateKeyLength: byte,
    rpIdLength: byte, userIdLength: byte, userNameLength: byte, displayNameLength: byte, reserved: seq<byte>,
    signCount: u32, credentialId: seq<byte>, privateKey: seq<byte>, credRandomWithUv: seq<byte>,
    credRandomWithoutUv: seq<byte>, rpId: seq<byte>, userId: seq<byte>, userName: seq<byte>, displayName: seq<byte>)

  predicate SlotShaped(s: Slot) {
    && |s.reserved| == 3 && |s.credentialId| == 32 && |s.privateKey| == 32
    && |s.credRandomWithUv| == 32 && |s.credRandomWithoutUv| == 32
    && |s.rpId| == 64 && |s.userId| == 64 && |s.userName| == 64 && |s.displayName| == 96
  }

  function Zeros(n: nat): (z: seq<byte>)
    ensures |z| == n && forall i :: 0 <= i < n ==> z[i] == 0
  {
    seq(n, i => 0)
  }

  /** What memset(slot, 0, sizeof(*slot)) leaves. */
  function EmptySlot(): (s: Slot)
    ensures SlotShaped(s) && !SlotValid(s)
  {
    Slot(0, 0, 0, 0, 0, 0, 0, 0, 0, Zeros(3), 0, Zeros(32), Zeros(32), Zeros(32), Zeros(32),
         Zeros(64), Zeros(64), Zeros(64), Zeros(96))
  }

  /** store_slot_is_valid */
  predicate SlotValid(s: Slot) {
    && s.inUse == 1
    && 1 <= s.credentialIdLength <= 32
    && s.privateKeyLength == 32
    && 1 <= s.rpIdLength < 64
    && s.userIdLength <= 64
    && s.userNameLength < 64
    && s.displayNameLength < 96
  }

  /** A credential with exactly this id. */
  predicate HoldsId(s: Slot, id: seq<byte>)
    requires SlotShaped(s)
  {
    SlotValid(s) && s.credentialIdLength == |id| && s.credentialId[..|id|] == id
  }

  /** A credential of exactly this relying party. */
  predicate HoldsRpId(s: Slot, rpId: seq<byte>)
    requires SlotShaped(s)
  {
    SlotValid(s) && s.rpIdLength == |rpId| && s.rpId[..|rpId|] == rpId
  }

  function PackNumbers(s: Slot): (r: seq<byte>)
    requires SlotShaped(s)
    ensures |r| == 16
  {
    [s.inUse, s.discoverable, s.credRandomReady, s.credentialIdLength, s.privateKeyLength,
     s.rpIdLength, s.userIdLength, s.userNameLength, s.displayNameLength]
    + s.reserved + Le32(s.signCount)
  }

  function PackKeys(s: Slot): (r: seq<byte>)
    requires SlotShaped(s)
    ensures |r| == 128
  {
    s.credentialId + s.privateKey + s.credRandomWithUv + s.credRandomWithoutUv
  }

  function PackNames(s: Slot): (r: seq<byte>)
    requires SlotShaped(s)
    ensures |r| == 288
  {
    s.rpId + s.userId + s.userName + s.displayName
  }

  /** The members of meowkey_store_slot_t in order; the layout has no padding. */
  function PackSlot(s: Slot): (r: seq<byte>)
    requires SlotShaped(s)
    ensures |r| == SLOT_SIZE
  {
    PackNumbers(s) + PackKeys(s) + PackNames(s)
  }

  function UnpackSlot(b: seq<byte>): (s: Slot)
    requires |b| == SLOT_SIZE
    ensures SlotShaped(s)
  {
    Slot(b[0], b[1], b[2], b[3], b[4], b[5], b[6], b[7], b[8], b[9..12], ReadLe32(b, 12),
         b[16..48], b[48..80], b[80..112], b[112..144], b[144..208], b[208..272], b[272..336], b[336..432])
  }

  /** A stretch of a stretch. */
  lemma SliceOfSlice(b: seq<byte>, from: nat, part: seq<byte>, lo: nat, hi: nat)
    requires from + |part| <= |b| && b[from..from + |part|] == part && lo <= hi <= |part|
    ensures b[from + lo..from + hi] == part[lo..hi]
  {
    var w := b[from..from + |part|];
    forall i | lo <= i < hi
      ensures b[from + i] == part[i]
    {
      assert w[i] == b[from + i];
    }
    assert b[from + lo..from + hi] == part[lo..hi];
  }

  lemma LastPart(front: seq<byte>, last: seq<byte>)
    ensures (front + last)[|front|..|front| + |last|] == last
  {
    var whole := front + last;
    forall i | 0 <= i < |last|
      ensures whole[|front| + i] == last[i]
    {
    }
  }

  lemma NumbersUnpack(s: Slot, b: seq<byte>)
    requires SlotShaped(s) && |b| == SLOT_SIZE && b[0..16] == PackNumbers(s)
    ensures b[0] == s.inUse && b[1] == s.discoverable && b[2] == s.credRandomReady && b[3] == s.credentialIdLength
    ensures b[4] == s.privateKeyLength && b[5] == s.rpIdLength && b[6] == s.userIdLength && b[7] == s.userNameLength
    ensures b[8] == s.displayNameLength && b[9..12] == s.reserved && ReadLe32(b, 12) == s.signCount
  {
    var part := PackNumbers(s);
    assert forall i :: 0 <= i < 9 ==> b[i] == b[0..16][i] == part[i];
    assert part[9..12] == s.reserved && part[12..16] == Le32(s.signCount);
    SliceOfSlice(b, 0, part, 9, 12);
    SliceOfSlice(b, 0, part, 12, 16);
    ReadLe32At(b, 12, s.signCount);
  }

  lemma KeysUnpack(s: Slot, b: seq<byte>)
    requires SlotShaped(s) && |b| == SLOT_SIZE && b[16..144] == PackKeys(s)
    ensures b[16..48] == s.credentialId && b[48..80] == s.privateKey
    ensures b[80..112] == s.credRandomWithUv && b[112..144] == s.credRandomWithoutUv
  {
    var part := PackKeys(s);
    assert part[0..32] == s.credentialId && part[32..64] == s.privateKey;
    assert part[64..96] == s.credRandomWithUv;
    LastPart(s.credentialId + s.privateKey + s.credRandomWithUv, s.credRandomWithoutUv);
    SliceOfSlice(b, 16, part, 0, 32);
    SliceOfSlice(b, 16, part, 32, 64);
    SliceOfSlice(b, 16, part, 64, 96);
    SliceOfSlice(b, 16, part, 96, 128);
  }

  lemma NamesUnpack(s: Slot, b: seq<byte>)
    requires SlotShaped(s) && |b| == SLOT_SIZE && b[144..432] == PackNames(s)
    ensures b[144..208] == s.rpId && b[208..272] == s.userId && b[272..336] == s.userName
      && b[336..432] == s.displayName
  {
    var part := PackNames(s);
    assert part[0..64] == s.rpId && part[64..128] == s.userId;
    assert part[128..192] == s.userName;
    LastPart(s.rpId + s.userId + s.userName, s.displayName);
    SliceOfSlice(b, 144, part, 0, 64);
    SliceOfSlice(b, 144, part, 64, 128);
    SliceOfSlice(b, 144, part, 128, 192);
    SliceOfSlice(b, 144, part, 192, 288);
  }

  lemma UnpackPackSlot(s: Slot)
    requires SlotShaped(s)
    ensures UnpackSlot(PackSlot(s)) == s
  {
    hide PackNumbers, PackKeys, PackNames;
    var b := PackSlot(s);
    assert b[0..16] == PackNumbers(s);
    assert b[16..144] == PackKeys(s);
    assert b[144..432] == PackNames(s);
    NumbersUnpack(s, b);
    KeysUnpack(s, b);
    NamesUnpack(s, b);
  }

  function PackSlots(slots: seq<Slot>): (r: seq<byte>)
    requires forall i :: 0 <= i < |slots| ==> SlotShaped(slots[i])
    ensures |r| == SLOT_SIZE * |slots|
  {
    if slots == [] then [] else PackSlot(slots[0]) + PackSlots(slots[1..])
  }

  function UnpackSlots(b: seq<byte>, count: nat): (slots: seq<Slot>)
    requires |b| == SLOT_SIZE * count
    ensures |slots| == count
    ensures forall i :: 0 <= i < |slots| ==> SlotShaped(slots[i])
    decreases count
  {
    if count == 0 then [] else [UnpackSlot(b[..SLOT_SIZE])] + UnpackSlots(b[SLOT_SIZE..], count - 1)
  }

  lemma {:induction false} UnpackPackSlots(slots: seq<Slot>)
    requires forall i :: 0 <= i < |slots| ==> SlotShaped(slots[i])
    ensures UnpackSlots(PackSlots(slots), |slots|) == slots
  {
    if slots != [] {
      var b := PackSlots(slots);
      assert b[..SLOT_SIZE] == PackSlot(slots[0]);
      assert b[SLOT_SIZE..] == PackSlots(slots[1..]);
      UnpackPackSlot(slots[0]);
      UnpackPackSlots(slots[1..]);
    }
  }

  datatype Payload = Payload(
    credentialCount: u32, pinConfigured: byte, pinRetries: byte, provenanceMagic: byte, provenanceFlags: byte,
    pinHash: seq<byte>, userPresence: UpConfig, slots: seq<Slot>, tail: seq<byte>)

  predicate Shaped(p: Platform, q: Payload) {
    && |q.pinHash| == 16
    && |q.slots| == p.maxCredentials
    && (forall i :: 0 <= i < |q.slots| ==> SlotShaped(q.slots[i]))
    && |q.tail| == p.TailSize()
  }

  function PackUp(c: UpConfig): (r: seq<byte>)
    ensures |r| == 8
  {
    [c.source, c.gpioPin, c.gpioActiveLow, c.tapCount] + Le16(c.gestureWindowMs) + Le16(c.requestTimeoutMs)
  }

  function UnpackUp(b: seq<byte>): UpConfig
    requires |b| == 8
  {
    UpConfig(b[0], b[1], b[2], b[3], ReadLe16(b, 4), ReadLe16(b, 6))
  }

  /** The payload union's raw view: what `s_store.raw` holds when `s_store.data` is `q`. */
  function Pack(p: Platform, q: Payload): (r: seq<byte>)
    requires Shaped(p, q)
    ensures |r| == p.ImageSize() - HEADER_SIZE
  {
    Le32(q.credentialCount) + [q.pinConfigured, q.pinRetries, q.provenanceMagic, q.provenanceFlags]
    + q.pinHash + PackUp(q.userPresence) + PackSlots(q.slots) + q.tail
  }

  function Unpack(p: Platform, b: seq<byte>): (q: Payload)
    requires |b| == p.ImageSize() - HEADER_SIZE
    ensures Shaped(p, q)
  {
    var slotsEnd := FIXED_SIZE + SLOT_SIZE * p.maxCredentials;
    Payload(ReadLe32(b, 0), b[4], b[5], b[6], b[7], b[8..24], UnpackUp(b[24..32]),
            UnpackSlots(b[FIXED_SIZE..slotsEnd], p.maxCredentials), b[slotsEnd..])
  }

  lemma UnpackPack(p: Platform, q: Payload)
    requires Shaped(p, q)
    ensures Unpack(p, Pack(p, q)) == q
  {
    hide SlotShaped, PackSlots, PackUp, UnpackSlots, UnpackUp;
    var b := Pack(p, q);
    var slotsEnd := FIXED_SIZE + SLOT_SIZE * p.maxCredentials;
    var fixed := Le32(q.credentialCount) + [q.pinConfigured, q.pinRetries, q.provenanceMagic, q.provenanceFlags]
                 + q.pinHash + PackUp(q.userPresence);
    assert b == fixed + PackSlots(q.slots) + q.tail;
    assert b[0..32] == fixed;
    assert b[32..slotsEnd] == PackSlots(q.slots);
    assert b[slotsEnd..] == q.tail;
    FixedUnpack(q, b, fixed);
    UnpackPackUp(q.userPresence);
    UnpackPackSlots(q.slots);
  }

  lemma FixedUnpack(q: Payload, b: seq<byte>, fixed: seq<byte>)
    requires |q.pinHash| == 16 && |b| >= 32 && b[0..32] == fixed
    requires fixed == Le32(q.credentialCount) + [q.pinConfigured, q.pinRetries, q.provenanceMagic, q.provenanceFlags]
                      + q.pinHash + PackUp(q.userPresence)
    ensures ReadLe32(b, 0) == q.credentialCount && b[4] == q.pinConfigured && b[5] == q.pinRetries
    ensures b[6] == q.provenanceMagic && b[7] == q.provenanceFlags
    ensures b[8..24] == q.pinHash && b[24..32] == PackUp(q.userPresence)
  {
    hide PackUp;
    assert fixed[0..4] == Le32(q.credentialCount) && fixed[8..24] == q.pinHash
      && fixed[24..32] == PackUp(q.userPresence);
    assert forall i :: 4 <= i < 8 ==> b[i] == b[0..32][i] == fixed[i];
    SliceOfSlice(b, 0, fixed, 0, 4);
    SliceOfSlice(b, 0, fixed, 8, 24);
    SliceOfSlice(b, 0, fixed, 24, 32);
    ReadLe32At(b, 0, q.credentialCount);
  }

  lemma UnpackPackUp(c: UpConfig)
    ensures UnpackUp(PackUp(c)) == c
  {
    var b := PackUp(c);
    ReadLe16At(b, 4, c.gestureWindowMs);
    ReadLe16At(b, 6, c.requestTimeoutMs);
  }

  // ---- Headers and images ----

  datatype Header = Header(
    magic: u32, version: u32, generation: u32, payloadSize: u32, payloadCrc: u32, headerCrc: u32, reserved: seq<byte>)

  function HeaderBytes(h: Header): (r: seq<byte>)
    requires |h.reserved| == 40
    ensures |r| == HEADER_SIZE
  {
    Le32(h.magic) + Le32(h.version) + Le32(h.generation) + Le32(h.payloadSize) + Le32(h.payloadCrc) + Le32(h.headerCrc)
    + h.reserved
  }

  function ParseHeader(b: seq<byte>): (h: Header)
    requires HEADER_SIZE <= |b|
    ensures |h.reserved| == 40
  {
    Header(ReadLe32(b, 0), ReadLe32(b, 4), ReadLe32(b, 8), ReadLe32(b, 12), ReadLe32(b, 16), ReadLe32(b, 20), b[24..64])
  }

  lemma ParseHeaderBytes(h: Header, b: seq<byte>)
    requires |h.reserved| == 40
    requires HEADER_SIZE <= |b| && b[..HEADER_SIZE] == HeaderBytes(h)
    ensures ParseHeader(b) == h
  {
    var w := b[..HEADER_SIZE];
    assert b[0..4] == w[0..4] == Le32(h.magic);
    assert b[4..8] == w[4..8] == Le32(h.version);
    assert b[8..12] == w[8..12] == Le32(h.generation);
    assert b[12..16] == w[12..16] == Le32(h.payloadSize);
    assert b[16..20] == w[16..20] == Le32(h.payloadCrc);
    assert b[20..24] == w[20..24] == Le32(h.headerCrc);
    assert b[24..64] == w[24..64] == h.reserved;
    ReadLe32At(b, 0, h.magic);
    ReadLe32At(b, 4, h.version);
    ReadLe32At(b, 8, h.generation);
    ReadLe32At(b, 12, h.payloadSize);
    ReadLe32At(b, 16, h.payloadCrc);
    ReadLe32At(b, 20, h.headerCrc);
  }

  datatype WrapMetadata = WrapMetadata(magic: u32, salt: Bytes16, tag: Bytes16, flags: byte)

  function MetadataBytes(m: WrapMetadata): (r: seq<byte>)
    ensures |r| == 40
  {
    Le32(m.magic) + m.salt + m.tag + [m.flags] + Zeros(3)
  }

  function ParseMetadata(b: seq<byte>): WrapMetadata
    requires |b| == 40
  {
    WrapMetadata(ReadLe32(b, 0), b[4..20], b[20..36], b[36])
  }

  lemma ParseMetadataBytes(m: WrapMetadata)
    ensures ParseMetadata(MetadataBytes(m)) == m
  {
    var b := MetadataBytes(m);
    assert b[0..4] == Le32(m.magic);
    ReadLe32At(b, 0, m.magic);
    assert b[4..20] == m.salt;
    assert b[20..36] == m.tag;
  }

  /** store_payload_crypt_in_place: XOR with the key stream the salt selects, from stream position `at` on. */
  function Crypt(p: Platform, salt: Bytes16, b: seq<byte>, at: nat): (r: seq<byte>)
    ensures |r| == |b|
    decreases |b|
  {
    if b == [] then [] else [Xor8(b[0], p.keystream(salt, at))] + Crypt(p, salt, b[1..], at + 1)
  }

  lemma {:induction false} CryptTwice(p: Platform, salt: Bytes16, b: seq<byte>, at: nat)
    ensures Crypt(p, salt, Crypt(p, salt, b, at), at) == b
    decreases |b|
  {
    if b != [] {
      Xor8Involutive(b[0], p.keystream(salt, at));
      CryptTwice(p, salt, b[1..], at + 1);
      var once := Crypt(p, salt, b, at);
      assert once[1..] == Crypt(p, salt, b[1..], at + 1);
    }
  }

  /** Byte by byte: position `at + i` of the stream over byte `i`. */
  lemma {:induction false} CryptAt(p: Platform, salt: Bytes16, b: seq<byte>, at: nat, i: nat)
    requires i < |b|
    ensures Crypt(p, salt, b, at)[i] == Xor8(b[i], p.keystream(salt, at + i))
    decreases |b|
  {
    if i > 0 {
      CryptAt(p, salt, b[1..], at + 1, i - 1);
    }
  }

  /** store_header_crc: over the header's bytes, with those of the checksum itself zeroed. */
  function HeaderCrc(p: Platform, b: seq<byte>): u32
    requires |b| == HEADER_SIZE
  {
    p.crc(b[..20] + Zeros(4) + b[24..])
  }

  lemma HeaderCrcIgnoresItself(p: Platform, h: Header, crc: u32)
    requires |h.reserved| == 40
    ensures HeaderCrc(p, HeaderBytes(h.(headerCrc := crc))) == HeaderCrc(p, HeaderBytes(h))
  {
    var a, b := HeaderBytes(h.(headerCrc := crc)), HeaderBytes(h);
    assert a[..20] == b[..20] && a[24..] == b[24..];
  }

  function PreparedHeader(p: Platform, cipher: seq<byte>, generation: u32, salt: Bytes16): (h: Header)
    ensures |h.reserved| == 40
  {
    var metadata := WrapMetadata(WRAP_MAGIC, salt, p.tag(salt, cipher), WRAP_FLAG_PAYLOAD_ENCRYPTED);
    var h := Header(STORE_MAGIC, STORE_VERSION, generation, p.ImageSize() - HEADER_SIZE, p.crc(cipher), 0,
                    MetadataBytes(metadata));
    h.(headerCrc := HeaderCrc(p, HeaderBytes(h)))
  }

  /** store_prepare_slot_image */
  function PrepareImage(p: Platform, q: Payload, generation: u32, salt: Bytes16): (image: seq<byte>)
    requires Shaped(p, q)
    ensures |image| == p.ImageSize()
  {
    var cipher := Crypt(p, salt, Pack(p, q), 0);
    HeaderBytes(PreparedHeader(p, cipher, generation, salt)) + cipher
  }

  /** The CRC a prepared image carries in its header: that of the encrypted payload. */
  function ImageCrc(p: Platform, q: Payload, salt: Bytes16): u32
    requires Shaped(p, q)
  {
    p.crc(Crypt(p, salt, Pack(p, q), 0))
  }

  /** store_header_is_valid */
  predicate HeaderValid(p: Platform, b: seq<byte>)
    requires |b| == HEADER_SIZE
  {
    var h := ParseHeader(b);
    && h.magic == STORE_MAGIC
    && h.version == STORE_VERSION
    && h.generation > 0
    && h.payloadSize == p.ImageSize() - HEADER_SIZE
    && h.headerCrc == HeaderCrc(p, b)
  }

  predicate WrapMetadataValid(m: WrapMetadata) {
    m.magic == WRAP_MAGIC && m.flags == WRAP_FLAG_PAYLOAD_ENCRYPTED
  }

  datatype LoadedSlot = LoadedSlot(payload: Payload, generation: u32, payloadCrc: u32, wrapped: bool)

  /** store_load_slot: None when the image is not a complete, authentic version-6 image. */
  function LoadSlot(p: Platform, b: seq<byte>): (r: Option<LoadedSlot>)
    ensures r.Some? ==> Shaped(p, r.value.payload)
  {
    if |b| != p.ImageSize() then None
    else
      var h := ParseHeader(b[..HEADER_SIZE]);
      var body := b[HEADER_SIZE..];
      if !HeaderValid(p, b[..HEADER_SIZE]) || p.crc(body) != h.payloadCrc then None
      else
        var m := ParseMetadata(h.reserved);
        if !WrapMetadataValid(m) then Some(LoadedSlot(Unpack(p, body), h.generation, h.payloadCrc, false))
        else if p.tag(m.salt, body) != m.tag then None
        else Some(LoadedSlot(Unpack(p, Crypt(p, m.salt, body, 0)), h.generation, h.payloadCrc, true))
  }

  /** A complete image loads back as exactly the payload, generation and checksum it was prepared from. */
  lemma LoadPrepared(p: Platform, q: Payload, generation: u32, salt: Bytes16)
    requires Shaped(p, q) && generation > 0
    ensures LoadSlot(p, PrepareImage(p, q, generation, salt))
         == Some(LoadedSlot(q, generation, ImageCrc(p, q, salt), true))
  {
    var image := PrepareImage(p, q, generation, salt);
    var cipher := Crypt(p, salt, Pack(p, q), 0);
    var h := PreparedHeader(p, cipher, generation, salt);
    assert image[..HEADER_SIZE] == HeaderBytes(h);
    assert image[HEADER_SIZE..] == cipher;
    ParseHeaderBytes(h, HeaderBytes(h));
    HeaderCrcIgnoresItself(p, h.(headerCrc := 0), h.headerCrc);
    ParseMetadataBytes(WrapMetadata(WRAP_MAGIC, salt, p.tag(salt, cipher), WRAP_FLAG_PAYLOAD_ENCRYPTED));
    CryptTwice(p, salt, Pack(p, q), 0);
    UnpackPack(p, q);
  }

  /** An image whose header page has been erased, or never programmed, is rejected: no hypothesis on the
      checksum is needed, the magic number already fails. */
  lemma ErasedHeaderRejected(p: Platform, b: seq<byte>)
    requires 4 <= |b| && b[0] == 255 && b[1] == 255 && b[2] == 255 && b[3] == 255
    ensures LoadSlot(p, b) == None
  {
    if |b| == p.ImageSize() {
      var head := b[..HEADER_SIZE];
      assert head[0] == 255 && head[1] == 255 && head[2] == 255 && head[3] == 255;
      assert ReadLe32(head, 0) == 0xffff_ffff;
    }
  }

  /** The header of an image: "MKS1", version 6, a generation above 0, the payload's size and checksum, and a checksum
      over the header with that field zeroed. */
  predicate SoundHeader(p: Platform, b: seq<byte>)
    requires |b| == p.ImageSize()
  {
    && ReadLe32(b, 0) == 0x4d4b_5331 && ReadLe32(b, 4) == 6 && ReadLe32(b, 8) > 0
    && ReadLe32(b, 12) == |b| - 64
    && ReadLe32(b, 16) == p.crc(b[64..])
    && ReadLe32(b, 20) == p.crc(b[..20] + Zeros(4) + b[24..64])
  }

  /** The header says that the payload is encrypted: "MKW1" and flag 1. */
  predicate Wrapped(b: seq<byte>)
    requires |b| >= 64
  {
    ReadLe32(b, 24) == 0x4d4b_5731 && b[60] == 1
  }

  /** The tag in the header authenticates the encrypted payload under the salt in the header. */
  predicate TagMatches(p: Platform, b: seq<byte>)
    requires |b| >= 64
  {
    b[44..60] == p.tag(b[28..44], b[64..])
  }

  /** A slot loads exactly if its header is sound and, where it is encrypted, its tag authentic; what it loads as is
      decrypted under the header's salt from the start of the stream, and nothing is decrypted where it is not. */
  lemma LoadSlotIff(p: Platform, b: seq<byte>)
    requires |b| == p.ImageSize()
    ensures LoadSlot(p, b).Some? <==> SoundHeader(p, b) && (Wrapped(b) ==> TagMatches(p, b))
    ensures var r := LoadSlot(p, b);
      r.Some? ==>
        && r.value.generation == ReadLe32(b, 8) && r.value.payloadCrc == ReadLe32(b, 16)
        && r.value.wrapped == Wrapped(b)
        && r.value.payload == Unpack(p, if Wrapped(b) then Crypt(p, b[28..44], b[64..], 0) else b[64..])
  {
    hide Unpack, Crypt;
    var head := b[..64];
    forall at | 0 <= at <= 60
      ensures ReadLe32(head, at) == ReadLe32(b, at)
    {
    }
    assert head[24..64] == b[24..64] && head[..20] == b[..20] && head[24..] == b[24..64];
    var reserved := b[24..64];
    assert ReadLe32(reserved, 0) == ReadLe32(b, 24);
    SliceOfSlice(b, 24, reserved, 4, 20);
    SliceOfSlice(b, 24, reserved, 20, 36);
    assert reserved[36] == b[60];
  }

  /** Slots of any other size do not load. */
  lemma WrongSizeRejected(p: Platform, b: seq<byte>)
    requires |b| != p.ImageSize()
    ensures LoadSlot(p, b) == None
  {
  }
}
