/** The paged credential catalogue: JSON text built into a fixed page on the device, and the host's loop over the
    pages. */
module CredentialPages {
  import opened Bits
  import opened StoreFormat
  import opened StoreSpec
  import opened SecretWrapping

  const PAGE_SIZE: nat := 1014
  const ITEM_SIZE: nat := 768
  const TAIL_RESERVE: nat := 160
  const PREVIEW: nat := 24
  const PREFIX: nat := 8
  const HOST_LIMIT: nat := 16

  // ---- JSON strings ----

  function HexDigit(n: nat): (r: byte)
    requires n < 16
  {
    if n < 10 then 48 + n else 87 + n
  }

  function EscapeByte(ch: byte): (r: seq<byte>)
    ensures 1 <= |r| <= 6 && forall i :: 0 <= i < |r| ==> r[i] >= 32
  {
    if ch == 34 || ch == 92 then [92, ch]
    else if ch == 8 then [92, 98]
    else if ch == 12 then [92, 102]
    else if ch == 10 then [92, 110]
    else if ch == 13 then [92, 114]
    else if ch == 9 then [92, 116]
    else if ch < 32 then [92, 117, 48, 48, HexDigit(ch / 16), HexDigit(ch % 16)]
    else [ch]
  }

  function Escape(s: seq<byte>): (r: seq<byte>)
    ensures |s| <= |r| <= 6 * |s|
  {
    if s == [] then [] else Escape(s[..|s| - 1]) + EscapeByte(s[|s| - 1])
  }

  /** json_escape_copy: it succeeds exactly if the escaped text and its terminator fit. */
  method JsonEscapeCopy(value: seq<byte>, capacity: nat) returns (ok: bool, output: seq<byte>)
    ensures ok == (|Escape(value)| < capacity)
    ensures ok ==> output == Escape(value)
  {
    hide EscapeByte;
    output := [];
    if capacity == 0 {
      return false, [];
    }
    for index := 0 to |value|
      invariant output == Escape(value[..index]) && |output| < capacity
    {
      var escaped := EscapeByte(value[index]);
      assert value[..index + 1][..index] == value[..index];
      if |output| + |escaped| >= capacity {
        EscapeGrows(value, index + 1);
        return false, output;
      }
      output := output + escaped;
    }
    assert value[..|value|] == value;
    ok := true;
  }

  lemma {:induction false} EscapeGrows(s: seq<byte>, n: nat)
    requires n <= |s|
    ensures |Escape(s[..n])| <= |Escape(s)|
    decreases |s| - n
  {
    if n < |s| {
      EscapeGrows(s, n + 1);
      assert s[..n + 1][..n] == s[..n];
    } else {
      assert s[..n] == s;
    }
  }

  function HexValue(d: byte): nat {
    if 48 <= d <= 57 then d - 48 else if 97 <= d <= 102 then d - 87 else 0
  }

  /** What a JSON parser makes of one escaped character at the front. */
  function UnescapeOne(t: seq<byte>): (byte, seq<byte>)
    requires t != []
  {
    if t[0] != 92 || |t| < 2 then (t[0], t[1..])
    else if t[1] == 117 && |t| >= 6 then ((16 * HexValue(t[4]) + HexValue(t[5])) % 256, t[6..])
    else
      (if t[1] == 98 then 8 else if t[1] == 102 then 12 else if t[1] == 110 then 10
       else if t[1] == 114 then 13 else if t[1] == 116 then 9 else t[1], t[2..])
  }

  function Unescape(t: seq<byte>): seq<byte>
    decreases |t|
  {
    if t == [] then [] else var (ch, rest) := UnescapeOne(t); [ch] + Unescape(rest)
  }

  lemma UnescapeByte(ch: byte, rest: seq<byte>)
    ensures UnescapeOne(EscapeByte(ch) + rest) == (ch, rest)
  {
    var t := EscapeByte(ch) + rest;
    assert t[|EscapeByte(ch)|..] == rest;
  }

  lemma EscapeCons(ch: byte, s: seq<byte>)
    ensures Escape([ch] + s) == EscapeByte(ch) + Escape(s)
    decreases |s|
  {
    hide EscapeByte;
    if s == [] {
      assert [ch] + s == [ch] && [ch][..0] == [];
    } else {
      var front, last := s[..|s| - 1], s[|s| - 1];
      EscapeCons(ch, front);
      assert ([ch] + s)[..|s|] == [ch] + front;
      assert ([ch] + s)[|s|] == last;
      assert Escape(s) == Escape(front) + EscapeByte(last);
    }
  }

  /** Escaping loses nothing, and leaves no quote, backslash or control character bare. */
  lemma {:induction false} UnescapeEscape(s: seq<byte>)
    ensures Unescape(Escape(s)) == s
    ensures forall i :: 0 <= i < |Escape(s)| ==> Escape(s)[i] >= 32
    decreases |s|
  {
    hide EscapeByte, UnescapeOne;
    if s != [] {
      var ch, rest := s[0], s[1..];
      assert s == [ch] + rest;
      EscapeCons(ch, rest);
      UnescapeByte(ch, Escape(rest));
      UnescapeEscape(rest);
    }
  }

  // ---- Items ----

  function Decimal(n: nat): (r: seq<byte>)
    ensures |r| >= 1
  {
    if n < 10 then [48 + n] else Decimal(n / 10) + [48 + n % 10]
  }

  function DigitsValue(t: seq<byte>): nat
    requires forall i :: 0 <= i < |t| ==> 48 <= t[i] <= 57
  {
    if t == [] then 0 else 10 * DigitsValue(t[..|t| - 1]) + (t[|t| - 1] - 48)
  }

  /** Numbers are read back from their digits. */
  lemma {:induction false} DecimalReads(n: nat)
    ensures forall i :: 0 <= i < |Decimal(n)| ==> 48 <= Decimal(n)[i] <= 57
    ensures DigitsValue(Decimal(n)) == n
    decreases n
  {
    if n >= 10 {
      DecimalReads(n / 10);
      var front := Decimal(n / 10);
      assert (front + [48 + n % 10])[..|front|] == front;
    } else {
      assert [48 + n][..0] == [];
    }
  }

  /** A number below 10^k has at most k digits. */
  lemma {:induction false} DecimalLength(n: nat, k: nat)
    requires k >= 1 && n < Power10(k)
    ensures |Decimal(n)| <= k
    decreases n
  {
    if n >= 10 {
      DecimalLength(n / 10, k - 1);
    }
  }

  function Power10(k: nat): nat {
    if k == 0 then 1 else 10 * Power10(k - 1)
  }

  function Truth(b: bool): (r: seq<byte>)
    ensures |r| <= 5
  {
    if b then Ascii("true") else Ascii("false")
  }

  /** string_preview_copy, then json_escape_copy */
  function Preview(field: seq<byte>, length: nat): (r: seq<byte>)
    ensures |r| <= 6 * PREVIEW
  {
    Escape(field[..Min(Min(length, PREVIEW), |field|)])
  }

  function Hex(s: seq<byte>): (r: seq<byte>)
    ensures |r| == 2 * |s|
  {
    if s == [] then [] else [HexDigit(s[0] / 16), HexDigit(s[0] % 16)] + Hex(s[1..])
  }

  /** Bytes are read back from their hexadecimal digits. */
  lemma {:induction false} HexReads(s: seq<byte>, i: nat)
    requires i < |s|
    ensures 16 * HexValue(Hex(s)[2 * i]) + HexValue(Hex(s)[2 * i + 1]) == s[i]
    decreases |s|
  {
    if i > 0 {
      HexReads(s[1..], i - 1);
    }
  }

  /** The first half of build_credential_summary_item_json's text, up to the flags. */
  function ItemHead(r: Record, slot: nat): seq<byte> {
    Ascii("{\"slot\":") + Decimal(slot)
    + Ascii(",\"credentialIdLength\":") + Decimal(r.credentialIdLength)
    + Ascii(",\"credentialIdPrefix\":\"")
    + Hex(r.credentialId[..Min(Min(r.credentialIdLength, PREFIX), |r.credentialId|)])
    + Ascii(if r.credentialIdLength > PREFIX then "..." else "")
    + Ascii("\",\"signCount\":") + Decimal(r.signCount)
    + Ascii(",\"discoverable\":") + Truth(r.discoverable)
    + Ascii(",\"credRandomReady\":") + Truth(r.credRandomReady)
  }

  function ItemTail(r: Record): seq<byte> {
    Ascii(",\"rpIdPreview\":\"") + Preview(r.rpId, r.rpIdLength)
    + Ascii("\",\"rpIdLength\":") + Decimal(r.rpIdLength)
    + Ascii(",\"userNamePreview\":\"") + Preview(r.userName, r.userNameLength)
    + Ascii("\",\"userNameLength\":") + Decimal(r.userNameLength)
    + Ascii(",\"displayNamePreview\":\"") + Preview(r.displayName, r.displayNameLength)
    + Ascii("\",\"displayNameLength\":") + Decimal(r.displayNameLength)
    + Ascii("}")
  }

  function Item(se: SecureElement, s: Slot, slot: nat): seq<byte>
    requires SlotShaped(s) && s.credentialIdLength <= 32
  {
    ItemHead(RecordOfSlot(se, s), slot) + ItemTail(RecordOfSlot(se, s))
  }

  lemma ItemHeadLength(r: Record, slot: nat)
    requires slot < 0x1_0000 && r.credentialIdLength <= 255
    ensures |ItemHead(r, slot)| <= 160
  {
    assert Power10(2) == 100;
    assert Power10(4) == 100 * Power10(2);
    assert Power10(6) == 100 * Power10(4);
    assert Power10(8) == 100 * Power10(6);
    assert Power10(10) == 100 * Power10(8);
    assert Power10(3) == 10 * Power10(2) && Power10(5) == 10 * Power10(4);
    DecimalLength(slot, 5);
    DecimalLength(r.credentialIdLength, 3);
    DecimalLength(r.signCount, 10);
  }

  lemma ItemTailLength(r: Record)
    requires r.rpIdLength <= 255 && r.userNameLength <= 255 && r.displayNameLength <= 255
    ensures |ItemTail(r)| <= 560
  {
    hide Preview;
    assert Power10(2) == 100;
    assert Power10(3) == 10 * Power10(2);
    DecimalLength(r.rpIdLength, 3);
    DecimalLength(r.userNameLength, 3);
    DecimalLength(r.displayNameLength, 3);
  }

  /** Even the worst escaped item fits its buffer with room to spare. */
  lemma ItemLength(se: SecureElement, s: Slot, slot: nat)
    requires SlotShaped(s) && SlotValid(s) && slot < 0x1_0000
    ensures |Item(se, s, slot)| <= 720 < ITEM_SIZE
  {
    hide ItemHead, ItemTail, SecretMask, Xored;
    var r := RecordOfSlot(se, s);
    ItemHeadLength(r, slot);
    ItemTailLength(r);
  }

  // ---- Pages ----

  /** The slots that hold credentials, in slot order. */
  function ValidSlots(slots: seq<Slot>, n: nat): seq<nat>
    requires n <= |slots|
  {
    if n == 0 then [] else ValidSlots(slots, n - 1) + if SlotValid(slots[n - 1]) then [n - 1] else []
  }

  /** Every valid slot exactly once, ascending. */
  lemma {:induction false} ValidSlotsIff(slots: seq<Slot>, n: nat)
    requires n <= |slots|
    ensures var r := ValidSlots(slots, n);
      && (forall i :: i in r <==> 0 <= i < n && SlotValid(slots[i]))
      && (forall j, k :: 0 <= j < k < |r| ==> r[j] < r[k])
  {
    hide SlotValid;
    if n > 0 {
      ValidSlotsIff(slots, n - 1);
      var front := ValidSlots(slots, n - 1);
      assert forall k :: 0 <= k < |front| ==> front[k] in front;
    }
  }

  lemma {:induction false} CountIsValidSlots(slots: seq<Slot>, n: nat)
    requires n <= |slots|
    ensures |ValidSlots(slots, n)| == ValidCount(slots[..n])
  {
    if n > 0 {
      CountIsValidSlots(slots, n - 1);
      assert slots[..n][..n - 1] == slots[..n - 1];
    }
  }

  function PageHead(p: Platform, q: Payload, cursor: nat, limit: nat): seq<byte> {
    Ascii("{\"protocolVersion\":1,\"cursor\":") + Decimal(cursor)
    + Ascii(",\"limit\":") + Decimal(limit)
    + Ascii(",\"total\":") + Decimal(q.credentialCount)
    + Ascii(",\"capacity\":") + Decimal(p.maxCredentials)
    + Ascii(",\"storeFormatVersion\":6,\"items\":[")
  }

  function PageTail(returned: nat, nextCursor: nat, hasMore: bool): seq<byte> {
    Ascii("],\"returned\":") + Decimal(returned)
    + Ascii(",\"nextCursor\":") + Decimal(nextCursor)
    + Ascii(",\"hasMore\":") + Truth(hasMore) + Ascii("}")
  }

  lemma PageHeadLength(p: Platform, q: Payload, cursor: nat, limit: nat)
    requires cursor < 0x1_0000 && limit <= 16
    ensures |PageHead(p, q, cursor, limit)| <= 125
  {
    assert Power10(2) == 100;
    assert Power10(4) == 100 * Power10(2);
    assert Power10(6) == 100 * Power10(4);
    assert Power10(8) == 100 * Power10(6);
    assert Power10(10) == 100 * Power10(8);
    assert Power10(5) == 10 * Power10(4);
    DecimalLength(cursor, 5);
    DecimalLength(limit, 2);
    DecimalLength(q.credentialCount, 10);
    DecimalLength(p.maxCredentials, 5);
  }

  lemma PageTailLength(returned: nat, nextCursor: nat, hasMore: bool)
    requires returned <= 16 && nextCursor < 0x2_0000
    ensures |PageTail(returned, nextCursor, hasMore)| <= TAIL_RESERVE
  {
    assert Power10(2) == 100;
    assert Power10(4) == 100 * Power10(2);
    assert Power10(6) == 100 * Power10(4);
    DecimalLength(returned, 2);
    DecimalLength(nextCursor, 6);
  }

  datatype Page = Page(text: seq<byte>, slots: seq<nat>, nextCursor: nat, hasMore: bool)

  predicate Listable(q: Payload, slots: seq<nat>) {
    forall k :: 0 <= k < |slots| ==>
      slots[k] < |q.slots| && SlotShaped(q.slots[slots[k]]) && q.slots[slots[k]].credentialIdLength <= 32
  }

  lemma ListableMore(q: Payload, slots: seq<nat>, slot: nat)
    requires Listable(q, slots) && slot < |q.slots| && SlotShaped(q.slots[slot]) && SlotValid(q.slots[slot])
    ensures Listable(q, slots + [slot]) && q.slots[slot].credentialIdLength <= 32
  {
  }

  /** The items of a page, separated by commas. */
  function Listed(se: SecureElement, q: Payload, slots: seq<nat>): seq<byte>
    requires Listable(q, slots)
  {
    if slots == [] then []
    else
      var front, last := slots[..|slots| - 1], slots[|slots| - 1];
      Listed(se, q, front) + Ascii(if front == [] then "" else ",") + Item(se, q.slots[last], last)
  }

  function From(s: seq<nat>, cursor: nat): seq<nat> {
    if cursor <= |s| then s[cursor..] else []
  }

  lemma FromMore(s: seq<nat>, slot: nat, cursor: nat)
    ensures From(s + [slot], cursor) == if cursor <= |s| then From(s, cursor) + [slot] else []
  {
  }

  lemma FromPrefix(s: seq<nat>, all: seq<nat>, cursor: nat)
    requires s <= all
    ensures |s| <= |all|
    ensures From(s, cursor) != [] ==> cursor + |From(s, cursor)| == |s| && From(s, cursor) == all[cursor..|s|]
  {
  }

  lemma ValidNext(slots: seq<Slot>, n: nat)
    requires n < |slots|
    ensures ValidSlots(slots, n + 1) == ValidSlots(slots, n) + if SlotValid(slots[n]) then [n] else []
  {
  }

  lemma NothingValid(slots: seq<Slot>)
    ensures ValidSlots(slots, 0) == []
  {
  }

  /** build_credential_summaries_json: always a page, always within the buffer, holding the next credentials in
      slot order, at least one if there is one, and saying truly whether there are more. */
  method BuildPage(p: Platform, se: SecureElement, q: Payload, cursor: u16, limit: nat) returns (page: Page)
    requires Shaped(p, q) && q.credentialCount == ValidCount(q.slots) && 1 <= limit <= 16
    ensures var all := ValidSlots(q.slots, |q.slots|);
      && |page.slots| <= limit
      && (cursor < |all| ==> page.slots != [] && cursor + |page.slots| <= |all|
                             && page.slots == all[cursor..cursor + |page.slots|])
      && (cursor >= |all| ==> page.slots == [])
      && page.nextCursor == cursor + |page.slots|
      && page.hasMore == (page.nextCursor < |all|)
      && Listable(q, page.slots)
      && page.text == PageHead(p, q, cursor, limit) + Listed(se, q, page.slots)
                      + PageTail(|page.slots|, page.nextCursor, page.hasMore)
      && |page.text| < PAGE_SIZE
  {
    hide SlotShaped, SlotValid, Item, PageHead, PageTail, Listable, Listed, ValidSlots, ValidCount;
    NothingValid(q.slots);
    NothingListed(se, q);
    ghost var all := ValidSlots(q.slots, |q.slots|);
    assert q.slots[..|q.slots|] == q.slots;
    CountIsValidSlots(q.slots, |q.slots|);
    PageHeadLength(p, q, cursor, limit);
    var head := PageHead(p, q, cursor, limit);
    var text := head;
    var slots: seq<nat> := [];
    var ordinal, slot := 0, 0;
    while slot < |q.slots|
      invariant slot <= |q.slots|
      invariant |slots| <= limit && ordinal == |ValidSlots(q.slots, slot)|
      invariant slots == From(ValidSlots(q.slots, slot), cursor)
      invariant Listable(q, slots)
      invariant text == head + Listed(se, q, slots)
      invariant |text| + TAIL_RESERVE < PAGE_SIZE
    {
      ValidNext(q.slots, slot);
      PrefixOfAll(q.slots, slot + 1, |q.slots|);
      if !SlotValid(q.slots[slot]) {
        slot := slot + 1;
        continue;
      }
      if ordinal < cursor {
        ordinal := ordinal + 1;
        slot := slot + 1;
        continue;
      }
      if |slots| >= limit {
        break;
      }
      FromMore(ValidSlots(q.slots, slot), slot, cursor);
      ItemLength(se, q.slots[slot], slot);
      ListableMore(q, slots, slot);
      var item := Item(se, q.slots[slot], slot);
      var comma := if slots == [] then "" else ",";
      if |text| + |item| + |comma| + TAIL_RESERVE >= PAGE_SIZE {
        break;
      }
      ListedMore(se, q, slots, slot);
      text := text + Ascii(comma) + item;
      slots := slots + [slot];
      ordinal := ordinal + 1;
      slot := slot + 1;
    }
    PrefixOfAll(q.slots, slot, |q.slots|);
    FromPrefix(ValidSlots(q.slots, slot), all, cursor);
    var nextCursor := cursor + |slots|;
    var hasMore := nextCursor < q.credentialCount;
    PageTailLength(|slots|, nextCursor, hasMore);
    page := Page(text + PageTail(|slots|, nextCursor, hasMore), slots, nextCursor, hasMore);
  }

  lemma NothingListed(se: SecureElement, q: Payload)
    ensures Listable(q, []) && Listed(se, q, []) == []
  {
  }

  lemma {:induction false} PrefixOfAll(slots: seq<Slot>, n: nat, m: nat)
    requires n <= m <= |slots|
    ensures ValidSlots(slots, n) <= ValidSlots(slots, m)
    decreases m
  {
    if n < m {
      PrefixOfAll(slots, n, m - 1);
    }
  }

  lemma ListedMore(se: SecureElement, q: Payload, slots: seq<nat>, slot: nat)
    requires Listable(q, slots)
    requires slot < |q.slots| && SlotShaped(q.slots[slot]) && q.slots[slot].credentialIdLength <= 32
    ensures Listed(se, q, slots + [slot])
         == Listed(se, q, slots) + Ascii(if slots == [] then "" else ",") + Item(se, q.slots[slot], slot)
  {
    assert (slots + [slot])[..|slots|] == slots;
  }

  /** In every state the store loads, the count it reports is the number of valid slots. */
  lemma LoadedCountIsExact(p: Platform, q: Payload)
    requires Shaped(p, q)
    ensures Sanitize(p, q).credentialCount == ValidCount(Sanitize(p, q).slots)
         == |ValidSlots(Sanitize(p, q).slots, |q.slots|)|
  {
    var r := Sanitize(p, q);
    assert r.slots[..|r.slots|] == r.slots;
    CountIsValidSlots(r.slots, |r.slots|);
  }

  /** get_formal_credential_catalog over a store that does not change: the loop ends, never reports a stuck
      cursor, and has collected every credential exactly once, in slot order. */
  method CollectCatalogue(p: Platform, se: SecureElement, q: Payload)
    returns (stuck: bool, collected: seq<nat>, pages: nat)
    requires Shaped(p, q) && q.credentialCount == ValidCount(q.slots)
    ensures !stuck && collected == ValidSlots(q.slots, |q.slots|)
    ensures 1 <= pages <= 1 + |collected|
  {
    hide SlotShaped, SlotValid, ValidSlots, ValidCount, PageHead, PageTail, Listable, Listed;
    ghost var all := ValidSlots(q.slots, |q.slots|);
    assert q.slots[..|q.slots|] == q.slots;
    CountIsValidSlots(q.slots, |q.slots|);
    var cursor: u16 := 0;
    collected, pages := [], 0;
    while true
      invariant cursor <= |all| && collected == all[..cursor] && pages <= cursor
      invariant cursor > 0 ==> cursor < |all|
      decreases |all| - cursor
    {
      var page := BuildPage(p, se, q, cursor, HOST_LIMIT);
      pages := pages + 1;
      assert all[..cursor] + page.slots == all[..page.nextCursor];
      collected := collected + page.slots;
      if !page.hasMore {
        stuck := false;
        return;
      }
      var next := page.nextCursor % 0x1_0000;
      if next <= cursor {
        stuck := true;
        return;
      }
      cursor := next;
    }
  }

  /** The catalogue tells nothing of a credential's secrets, of its user id, or of its id behind the first eight
      bytes: two records that differ only there are listed alike. */
  lemma ListingHidesSecrets(r: Record, t: Record, slot: nat)
    requires RecordShaped(r) && RecordShaped(t) && r.credentialId[..8] == t.credentialId[..8]
    requires t == r.(credentialId := t.credentialId, privateKey := t.privateKey, userId := t.userId,
                     credRandomWithUv := t.credRandomWithUv, credRandomWithoutUv := t.credRandomWithoutUv)
    ensures ItemHead(r, slot) + ItemTail(r) == ItemHead(t, slot) + ItemTail(t)
  {
    hide Decimal, Hex, Preview, Ascii, Truth;
    var n := Min(Min(r.credentialIdLength, PREFIX), 32);
    assert r.credentialId[..n] == r.credentialId[..8][..n];
    assert t.credentialId[..n] == t.credentialId[..8][..n];
  }
}
