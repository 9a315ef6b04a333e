/** Reading the credential catalogue: what a JSON reader makes of the device's pages is what the store holds. */
module CatalogueText {
  import opened Bits
  import opened StoreFormat
  import opened StoreSpec
  import opened SecretWrapping
  import opened CredentialPages

  // ---- Tokens ----

  datatype Reading<T> = Fail | Got(value: T, rest: seq<byte>)

  predicate StartsWithDigit(t: seq<byte>) {
    t != [] && 48 <= t[0] <= 57
  }

  /** The number whose digits come first, behind `sofar`. */
  function Digits(t: seq<byte>, sofar: nat): (r: Reading<nat>)
    ensures r.Got? && |r.rest| <= |t|
    decreases |t|
  {
    if StartsWithDigit(t) then Digits(t[1..], 10 * sofar + (t[0] - 48)) else Got(sofar, t)
  }

  /** A string behind its opening quote, up to the closing one, with its escapes undone. */
  function Str(t: seq<byte>): (r: Reading<seq<byte>>)
    ensures r.Got? ==> |r.rest| < |t|
    decreases |t|
  {
    if t == [] then Fail
    else if t[0] == 34 then Got([], t[1..])
    else
      var (ch, rest) := UnescapeOne(t);
      var more := Str(rest);
      if more.Fail? then Fail else Got([ch] + more.value, more.rest)
  }

  /** A number, a string or a truth value behind a key. */
  function NumberAt(t: seq<byte>, key: string): (r: Reading<nat>)
    ensures r.Got? ==> |r.rest| <= |t|
  {
    if Ascii(key) <= t && StartsWithDigit(t[|key|..]) then Digits(t[|key|..], 0) else Fail
  }

  function StrAt(t: seq<byte>, key: string): (r: Reading<seq<byte>>)
    ensures r.Got? ==> |r.rest| < |t|
  {
    if Ascii(key) <= t then Str(t[|key|..]) else Fail
  }

  function FlagAt(t: seq<byte>, key: string): (r: Reading<bool>)
    ensures r.Got? ==> |r.rest| <= |t|
  {
    if !(Ascii(key) <= t) then Fail
    else if Ascii("true") <= t[|key|..] then Got(true, t[|key| + 4..])
    else if Ascii("false") <= t[|key|..] then Got(false, t[|key| + 5..])
    else Fail
  }

  lemma {:induction false} DigitsRead(n: nat, rest: seq<byte>)
    ensures StartsWithDigit(Decimal(n) + rest)
    ensures Digits(Decimal(n) + rest, 0) == Digits(rest, n)
    decreases n
  {
    if n < 10 {
      var t := Decimal(n) + rest;
      assert t[1..] == rest;
    } else {
      var d: byte := 48 + n % 10;
      assert Decimal(n) + rest == Decimal(n / 10) + ([d] + rest);
      DigitsRead(n / 10, [d] + rest);
      assert ([d] + rest)[1..] == rest;
    }
  }

  lemma {:induction false} StrRead(s: seq<byte>, rest: seq<byte>)
    ensures Str(Escape(s) + [34] + rest) == Got(s, rest)
    decreases |s|
  {
    hide EscapeByte, UnescapeOne;
    if s == [] {
      assert Escape(s) + [34] + rest == [34] + rest;
      assert ([34] + rest)[1..] == rest;
    } else {
      var ch, more := s[0], s[1..];
      var after := Escape(more) + [34] + rest;
      assert s == [ch] + more;
      EscapeCons(ch, more);
      assert Escape(s) + [34] + rest == EscapeByte(ch) + after;
      UnescapeByte(ch, after);
      EscapedIsNoQuote(ch, after);
      StrRead(more, rest);
    }
  }

  lemma EscapedIsNoQuote(ch: byte, rest: seq<byte>)
    ensures (EscapeByte(ch) + rest)[0] != 34
  {
  }

  lemma NumberRead(key: string, n: nat, rest: seq<byte>)
    requires !StartsWithDigit(rest)
    ensures NumberAt(Ascii(key) + Decimal(n) + rest, key) == Got(n, rest)
  {
    hide Ascii, Decimal;
    var t := Ascii(key) + Decimal(n) + rest;
    DigitsRead(n, rest);
    assert t == Ascii(key) + (Decimal(n) + rest);
    assert t[|key|..] == Decimal(n) + rest;
  }

  lemma QuotedRead(key: string, s: seq<byte>, rest: seq<byte>)
    ensures StrAt(Ascii(key) + Escape(s) + [34] + rest, key) == Got(s, rest)
  {
    hide Ascii, Escape;
    var t := Ascii(key) + Escape(s) + [34] + rest;
    StrRead(s, rest);
    assert t == Ascii(key) + (Escape(s) + [34] + rest);
    assert t[|key|..] == Escape(s) + [34] + rest;
  }

  lemma FlagRead(key: string, b: bool, rest: seq<byte>)
    ensures FlagAt(Ascii(key) + Truth(b) + rest, key) == Got(b, rest)
  {
    var t := Ascii(key) + Truth(b) + rest;
    assert t[|key|..] == Truth(b) + rest;
    assert Ascii("true")[0] == 116 && Ascii("false")[0] == 102;
  }

  /** Text without quotes, backslashes and control characters needs no escaping. */
  lemma {:induction false} PlainEscape(s: seq<byte>)
    requires forall i :: 0 <= i < |s| ==> s[i] >= 32 && s[i] != 34 && s[i] != 92
    ensures Escape(s) == s
    decreases |s|
  {
    if s != [] {
      PlainEscape(s[..|s| - 1]);
    }
  }

  lemma {:induction false} HexIsPlain(s: seq<byte>)
    ensures forall i :: 0 <= i < |Hex(s)| ==> 48 <= Hex(s)[i] <= 102 && Hex(s)[i] != 92
    decreases |s|
  {
    if s != [] {
      HexIsPlain(s[1..]);
    }
  }

  // ---- Items ----

  datatype Listing = Listing(
    slot: nat, idLength: nat, prefix: seq<byte>, signCount: nat, discoverable: bool, ready: bool,
    rp: seq<byte>, rpLength: nat, user: seq<byte>, userLength: nat, display: seq<byte>, displayLength: nat)

  /** What the catalogue is to say of a credential: its slot, the first eight bytes of its id in hexadecimal, its
      count, its flags, and up to 24 bytes of each name. */
  function ListingOf(r: Record, slot: nat): Listing {
    Listing(slot, r.credentialIdLength, PrefixText(r), r.signCount, r.discoverable, r.credRandomReady,
            Shown(r.rpId, r.rpIdLength), r.rpIdLength, Shown(r.userName, r.userNameLength), r.userNameLength,
            Shown(r.displayName, r.displayNameLength), r.displayNameLength)
  }

  function Shown(field: seq<byte>, length: nat): seq<byte> {
    field[..Min(Min(length, 24), |field|)]
  }

  function PrefixText(r: Record): seq<byte> {
    Hex(r.credentialId[..Min(Min(r.credentialIdLength, 8), |r.credentialId|)])
    + Ascii(if r.credentialIdLength > 8 then "..." else "")
  }

  datatype Front = Front(slot: nat, idLength: nat, prefix: seq<byte>, signCount: nat, discoverable: bool, ready: bool)

  datatype Back = Back(
    rp: seq<byte>, rpLength: nat, user: seq<byte>, userLength: nat, display: seq<byte>, displayLength: nat)

  function ReadFront(t: seq<byte>): (r: Reading<Front>)
    ensures r.Got? ==> |r.rest| < |t|
  {
    var slot := NumberAt(t, "{\"slot\":");
    if slot.Fail? then Fail else
    var length := NumberAt(slot.rest, ",\"credentialIdLength\":");
    if length.Fail? then Fail else
    var prefix := StrAt(length.rest, ",\"credentialIdPrefix\":\"");
    if prefix.Fail? then Fail else
    var count := NumberAt(prefix.rest, ",\"signCount\":");
    if count.Fail? then Fail else
    var discoverable := FlagAt(count.rest, ",\"discoverable\":");
    if discoverable.Fail? then Fail else
    var ready := FlagAt(discoverable.rest, ",\"credRandomReady\":");
    if ready.Fail? then Fail else
    Got(Front(slot.value, length.value, prefix.value, count.value, discoverable.value, ready.value), ready.rest)
  }

  function ReadBack(t: seq<byte>): (r: Reading<Back>)
    ensures r.Got? ==> |r.rest| < |t|
  {
    var rp := StrAt(t, ",\"rpIdPreview\":\"");
    if rp.Fail? then Fail else
    var rpLength := NumberAt(rp.rest, ",\"rpIdLength\":");
    if rpLength.Fail? then Fail else
    var user := StrAt(rpLength.rest, ",\"userNamePreview\":\"");
    if user.Fail? then Fail else
    var userLength := NumberAt(user.rest, ",\"userNameLength\":");
    if userLength.Fail? then Fail else
    var display := StrAt(userLength.rest, ",\"displayNamePreview\":\"");
    if display.Fail? then Fail else
    var displayLength := NumberAt(display.rest, ",\"displayNameLength\":");
    if displayLength.Fail? || displayLength.rest == [] || displayLength.rest[0] != 125 then Fail else
    Got(Back(rp.value, rpLength.value, user.value, userLength.value, display.value, displayLength.value),
        displayLength.rest[1..])
  }

  function ReadItem(t: seq<byte>): (r: Reading<Listing>)
    ensures r.Got? ==> |r.rest| < |t|
  {
    var front := ReadFront(t);
    if front.Fail? then Fail else
    var back := ReadBack(front.rest);
    if back.Fail? then Fail else
    var f, b := front.value, back.value;
    Got(Listing(f.slot, f.idLength, f.prefix, f.signCount, f.discoverable, f.ready,
                b.rp, b.rpLength, b.user, b.userLength, b.display, b.displayLength), back.rest)
  }

  lemma PrefixIsPlain(r: Record)
    ensures Escape(PrefixText(r)) == PrefixText(r)
  {
    hide Hex;
    var id := r.credentialId[..Min(Min(r.credentialIdLength, 8), |r.credentialId|)];
    HexIsPlain(id);
    PlainEscape(PrefixText(r));
  }

  lemma NoDigit(text: string, rest: seq<byte>)
    requires text != "" && !('0' <= text[0] <= '9') && text[0] as int < 256
    ensures !StartsWithDigit(Ascii(text) + rest)
  {
    assert (Ascii(text) + rest)[0] == text[0] as int;
  }

  lemma FrontRead(r: Record, slot: nat, rest: seq<byte>)
    ensures ReadFront(ItemHead(r, slot) + rest)
         == Got(Front(slot, r.credentialIdLength, PrefixText(r), r.signCount, r.discoverable, r.credRandomReady), rest)
  {
    hide Decimal, Hex, Truth, Escape, Ascii, Digits, Str, NumberAt, StrAt, FlagAt, PrefixText, StartsWithDigit;
    var t6 := Ascii(",\"credRandomReady\":") + Truth(r.credRandomReady) + rest;
    var t5 := Ascii(",\"discoverable\":") + Truth(r.discoverable) + t6;
    var t4 := Ascii(",\"signCount\":") + Decimal(r.signCount) + t5;
    var t3 := Ascii(",\"credentialIdPrefix\":\"") + Escape(PrefixText(r)) + [34] + t4;
    var t2 := Ascii(",\"credentialIdLength\":") + Decimal(r.credentialIdLength) + t3;
    var t1 := Ascii("{\"slot\":") + Decimal(slot) + t2;
    HeadSplits(r, slot, rest);
    NoDigit(",\"credentialIdLength\":", Decimal(r.credentialIdLength) + t3);
    NoDigit(",\"credentialIdPrefix\":\"", Escape(PrefixText(r)) + [34] + t4);
    NoDigit(",\"discoverable\":", Truth(r.discoverable) + t6);
    Regroup(",\"credentialIdLength\":", Decimal(r.credentialIdLength), t3);
    Regroup(",\"credentialIdPrefix\":\"", Escape(PrefixText(r)) + [34], t4);
    Regroup(",\"discoverable\":", Truth(r.discoverable), t6);
    assert t3 == Ascii(",\"credentialIdPrefix\":\"") + (Escape(PrefixText(r)) + [34]) + t4;
    NumberRead("{\"slot\":", slot, t2);
    NumberRead(",\"credentialIdLength\":", r.credentialIdLength, t3);
    QuotedRead(",\"credentialIdPrefix\":\"", PrefixText(r), t4);
    NumberRead(",\"signCount\":", r.signCount, t5);
    FlagRead(",\"discoverable\":", r.discoverable, t6);
    FlagRead(",\"credRandomReady\":", r.credRandomReady, rest);
  }

  lemma Regroup(text: string, middle: seq<byte>, rest: seq<byte>)
    ensures Ascii(text) + middle + rest == Ascii(text) + (middle + rest)
  {
  }

  lemma Shift(a: seq<byte>, k: seq<byte>, v: seq<byte>, rest: seq<byte>)
    ensures a + k + v + rest == a + (k + v + rest)
  {
  }

  /** The closing quote of a string belongs to the string, not to the key behind it. */
  lemma QuoteFirst(key: string)
    ensures Ascii("\"" + key) == [34] + Ascii(key)
  {
  }

  lemma PrefixShape(a: seq<byte>, k: seq<byte>, hex: seq<byte>, dots: seq<byte>, quote: seq<byte>, next: seq<byte>,
                    v: seq<byte>, rest: seq<byte>)
    ensures a + k + hex + dots + (quote + next) + v + rest == a + (k + (hex + dots) + quote + (next + v + rest))
  {
    var x, y := a + k + hex + dots + (quote + next) + v + rest, a + (k + (hex + dots) + quote + (next + v + rest));
    assert |x| == |y|;
    forall i | 0 <= i < |x|
      ensures x[i] == y[i]
    {
    }
  }

  lemma HeadShape(a: seq<byte>, k2: seq<byte>, v2: seq<byte>, k3: seq<byte>, hex: seq<byte>, dots: seq<byte>,
                  quote: seq<byte>, k4: seq<byte>, v4: seq<byte>, k5: seq<byte>, v5: seq<byte>, k6: seq<byte>,
                  v6: seq<byte>, rest: seq<byte>)
    ensures a + k2 + v2 + k3 + hex + dots + (quote + k4) + v4 + k5 + v5 + k6 + v6 + rest
         == a + (k2 + v2 + (k3 + (hex + dots) + quote + (k4 + v4 + (k5 + v5 + (k6 + v6 + rest)))))
  {
    var b := a + k2 + v2;
    var c := b + k3 + hex + dots + (quote + k4) + v4;
    var t6 := k6 + v6 + rest;
    var t5 := k5 + v5 + t6;
    Shift(c + k5 + v5, k6, v6, rest);
    Shift(c, k5, v5, t6);
    PrefixShape(b, k3, hex, dots, quote, k4, v4, t5);
    Shift(a, k2, v2, k3 + (hex + dots) + quote + (k4 + v4 + t5));
  }

  lemma HeadSplits(r: Record, slot: nat, rest: seq<byte>)
    ensures var t6 := Ascii(",\"credRandomReady\":") + Truth(r.credRandomReady) + rest;
      var t5 := Ascii(",\"discoverable\":") + Truth(r.discoverable) + t6;
      var t4 := Ascii(",\"signCount\":") + Decimal(r.signCount) + t5;
      var t3 := Ascii(",\"credentialIdPrefix\":\"") + Escape(PrefixText(r)) + [34] + t4;
      var t2 := Ascii(",\"credentialIdLength\":") + Decimal(r.credentialIdLength) + t3;
      ItemHead(r, slot) + rest == Ascii("{\"slot\":") + Decimal(slot) + t2
  {
    hide Decimal, Hex, Truth, Escape, Ascii, HexDigit;
    PrefixIsPlain(r);
    QuoteFirst(",\"signCount\":");
    assert "\"" + ",\"signCount\":" == "\",\"signCount\":";
    HeadShape(Ascii("{\"slot\":") + Decimal(slot), Ascii(",\"credentialIdLength\":"), Decimal(r.credentialIdLength),
              Ascii(",\"credentialIdPrefix\":\""),
              Hex(r.credentialId[..Min(Min(r.credentialIdLength, PREFIX), |r.credentialId|)]),
              Ascii(if r.credentialIdLength > PREFIX then "..." else ""), [34], Ascii(",\"signCount\":"),
              Decimal(r.signCount), Ascii(",\"discoverable\":"), Truth(r.discoverable),
              Ascii(",\"credRandomReady\":"), Truth(r.credRandomReady), rest);
  }

  lemma QuotedShape(a: seq<byte>, k: seq<byte>, e: seq<byte>, quote: seq<byte>, next: seq<byte>, v: seq<byte>,
                    rest: seq<byte>)
    ensures a + k + e + (quote + next) + v + rest == a + (k + e + quote + (next + v + rest))
  {
    var x, y := a + k + e + (quote + next) + v + rest, a + (k + e + quote + (next + v + rest));
    assert |x| == |y|;
    forall i | 0 <= i < |x|
      ensures x[i] == y[i]
    {
    }
  }

  /** One name of an item: its preview, then its length. */
  function NameText(preview: string, length: string, shown: seq<byte>, n: nat, rest: seq<byte>): seq<byte> {
    Ascii(preview) + Escape(shown) + [34] + (Ascii(length) + Decimal(n) + rest)
  }

  lemma NameRead(preview: string, length: string, shown: seq<byte>, n: nat, rest: seq<byte>)
    requires !StartsWithDigit(rest)
    ensures var t := StrAt(NameText(preview, length, shown, n, rest), preview);
      t.Got? && t.value == shown && NumberAt(t.rest, length) == Got(n, rest)
  {
    hide Ascii, Escape, Decimal, StrAt, NumberAt;
    QuotedRead(preview, shown, Ascii(length) + Decimal(n) + rest);
    NumberRead(length, n, rest);
  }

  lemma NameStarts(preview: string, length: string, shown: seq<byte>, n: nat, rest: seq<byte>)
    requires preview != "" && !('0' <= preview[0] <= '9') && preview[0] as int < 256
    ensures !StartsWithDigit(NameText(preview, length, shown, n, rest))
  {
    hide Escape, Decimal;
    assert NameText(preview, length, shown, n, rest)[0] == preview[0] as int;
  }

  lemma BackShape(k1: seq<byte>, e1: seq<byte>, l1: seq<byte>, d1: seq<byte>,
                  k2: seq<byte>, e2: seq<byte>, l2: seq<byte>, d2: seq<byte>,
                  k3: seq<byte>, e3: seq<byte>, l3: seq<byte>, d3: seq<byte>,
                  quote: seq<byte>, end: seq<byte>, rest: seq<byte>)
    ensures k1 + e1 + (quote + l1) + d1 + k2 + e2 + (quote + l2) + d2 + k3 + e3 + (quote + l3) + d3 + end + rest
         == k1 + e1 + quote + (l1 + d1 + (k2 + e2 + quote + (l2 + d2 + (k3 + e3 + quote + (l3 + d3 + (end + rest))))))
  {
    var a := k1 + e1 + (quote + l1) + d1;
    var b := a + k2 + e2 + (quote + l2) + d2;
    var t3 := k3 + e3 + quote + (l3 + d3 + (end + rest));
    var t2 := k2 + e2 + quote + (l2 + d2 + t3);
    var c := b + k3 + e3 + (quote + l3) + d3;
    assert c + end + rest == c + (end + rest);
    QuotedShape(b, k3, e3, quote, l3, d3, end + rest);
    QuotedShape(a, k2, e2, quote, l2, d2, t3);
    QuotedShape([], k1, e1, quote, l1, d1, t2);
    assert [] + k1 == k1;
  }

  lemma BackSplits(r: Record, rest: seq<byte>)
    ensures ItemTail(r) + rest ==
      NameText(",\"rpIdPreview\":\"", ",\"rpIdLength\":", Shown(r.rpId, r.rpIdLength), r.rpIdLength,
        NameText(",\"userNamePreview\":\"", ",\"userNameLength\":",
          Shown(r.userName, r.userNameLength), r.userNameLength,
          NameText(",\"displayNamePreview\":\"", ",\"displayNameLength\":", Shown(r.displayName, r.displayNameLength),
                   r.displayNameLength, Ascii("}") + rest)))
  {
    hide Decimal, Escape, Ascii;
    QuoteFirst(",\"rpIdLength\":");
    QuoteFirst(",\"userNameLength\":");
    QuoteFirst(",\"displayNameLength\":");
    assert "\"" + ",\"rpIdLength\":" == "\",\"rpIdLength\":";
    assert "\"" + ",\"userNameLength\":" == "\",\"userNameLength\":";
    assert "\"" + ",\"displayNameLength\":" == "\",\"displayNameLength\":";
    BackShape(Ascii(",\"rpIdPreview\":\""), Preview(r.rpId, r.rpIdLength), Ascii(",\"rpIdLength\":"),
              Decimal(r.rpIdLength), Ascii(",\"userNamePreview\":\""), Preview(r.userName, r.userNameLength),
              Ascii(",\"userNameLength\":"), Decimal(r.userNameLength), Ascii(",\"displayNamePreview\":\""),
              Preview(r.displayName, r.displayNameLength), Ascii(",\"displayNameLength\":"),
              Decimal(r.displayNameLength), [34], Ascii("}"), rest);
  }

  lemma BackRead(r: Record, rest: seq<byte>)
    ensures ReadBack(ItemTail(r) + rest)
         == Got(Back(Shown(r.rpId, r.rpIdLength), r.rpIdLength, Shown(r.userName, r.userNameLength), r.userNameLength,
                     Shown(r.displayName, r.displayNameLength), r.displayNameLength), rest)
  {
    hide Decimal, Escape, NumberAt, StrAt, StartsWithDigit, NameText, ItemTail;
    var end := Ascii("}") + rest;
    assert end[0] == 125 && end[1..] == rest;
    NoDigit("}", rest);
    var t3 := NameText(",\"displayNamePreview\":\"", ",\"displayNameLength\":",
                       Shown(r.displayName, r.displayNameLength), r.displayNameLength, end);
    var t2 := NameText(",\"userNamePreview\":\"", ",\"userNameLength\":", Shown(r.userName, r.userNameLength),
                       r.userNameLength, t3);
    BackSplits(r, rest);
    NameStarts(",\"displayNamePreview\":\"", ",\"displayNameLength\":",
               Shown(r.displayName, r.displayNameLength), r.displayNameLength, end);
    NameStarts(",\"userNamePreview\":\"", ",\"userNameLength\":",
               Shown(r.userName, r.userNameLength), r.userNameLength, t3);
    NameRead(",\"rpIdPreview\":\"", ",\"rpIdLength\":", Shown(r.rpId, r.rpIdLength), r.rpIdLength, t2);
    NameRead(",\"userNamePreview\":\"", ",\"userNameLength\":",
             Shown(r.userName, r.userNameLength), r.userNameLength, t3);
    NameRead(",\"displayNamePreview\":\"", ",\"displayNameLength\":",
             Shown(r.displayName, r.displayNameLength), r.displayNameLength, end);
  }

  /** One item, whatever follows it, is read back as exactly what it is to say. */
  lemma ItemRead(se: SecureElement, s: Slot, slot: nat, rest: seq<byte>)
    requires SlotShaped(s) && s.credentialIdLength <= 32
    ensures ReadItem(Item(se, s, slot) + rest) == Got(ListingOf(RecordOfSlot(se, s), slot), rest)
  {
    hide ItemHead, ItemTail, ReadFront, ReadBack, RecordOfSlot, Shown, PrefixText;
    var r := RecordOfSlot(se, s);
    assert Item(se, s, slot) + rest == ItemHead(r, slot) + (ItemTail(r) + rest);
    FrontRead(r, slot, ItemTail(r) + rest);
    BackRead(r, rest);
  }

  // ---- Pages ----

  /** Items up to the closing bracket, with commas between them. */
  function ReadItems(t: seq<byte>): (r: Reading<seq<Listing>>)
    ensures r.Got? ==> |r.rest| <= |t|
    decreases |t|
  {
    if t != [] && t[0] == 93 then Got([], t)
    else
      var item := ReadItem(t);
      if item.Fail? then Fail
      else if item.rest != [] && item.rest[0] == 44 then
        var more := ReadItems(item.rest[1..]);
        if more.Fail? then Fail else Got([item.value] + more.value, more.rest)
      else Got([item.value], item.rest)
  }

  function ListingsOf(se: SecureElement, q: Payload, slots: seq<nat>): seq<Listing>
    requires Listable(q, slots)
    decreases |slots|
  {
    if slots == [] then []
    else [ListingOf(RecordOfSlot(se, q.slots[slots[0]]), slots[0])] + ListingsOf(se, q, slots[1..])
  }

  lemma {:induction false} ListedFromTheFront(se: SecureElement, q: Payload, slots: seq<nat>)
    requires Listable(q, slots) && slots != []
    ensures Listed(se, q, slots) == Item(se, q.slots[slots[0]], slots[0])
              + if |slots| == 1 then [] else Ascii(",") + Listed(se, q, slots[1..])
    decreases |slots|
  {
    hide Item, SlotShaped;
    var front, last := slots[..|slots| - 1], slots[|slots| - 1];
    if front == [] {
      assert Listed(se, q, front) == [];
    } else {
      ListedFromTheFront(se, q, front);
      var tail := slots[1..];
      assert tail[..|tail| - 1] == front[1..];
      if |front| == 1 {
        assert front[1..] == [] && Listed(se, q, front[1..]) == [];
      }
    }
  }

  /** One item and what is read behind it. */
  lemma OneMore(t: seq<byte>, item: Listing, behind: seq<byte>, more: Reading<seq<Listing>>)
    requires t != [] && t[0] != 93 && ReadItem(t) == Got(item, behind)
    requires behind != [] && (if behind[0] == 44 then more == ReadItems(behind[1..]) else more == Got([], behind))
    requires more.Got?
    ensures ReadItems(t) == Got([item] + more.value, more.rest)
  {
    hide ReadItem;
    if behind[0] != 44 {
      assert [item] + more.value == [item];
    }
  }

  /** What follows the first item of a list. */
  function BehindFirst(se: SecureElement, q: Payload, slots: seq<nat>, rest: seq<byte>): seq<byte>
    requires Listable(q, slots) && slots != []
  {
    if |slots| == 1 then rest else Ascii(",") + (Listed(se, q, slots[1..]) + rest)
  }

  lemma ListedSplits(se: SecureElement, q: Payload, slots: seq<nat>, rest: seq<byte>)
    requires Listable(q, slots) && slots != []
    ensures Listed(se, q, slots) + rest == Item(se, q.slots[slots[0]], slots[0]) + BehindFirst(se, q, slots, rest)
  {
    hide Item, SlotShaped, Listed, Ascii;
    ListedFromTheFront(se, q, slots);
    var item := Item(se, q.slots[slots[0]], slots[0]);
    if |slots| == 1 {
      MoveRight(item, [], [], rest);
    } else {
      MoveRight(item, Ascii(","), Listed(se, q, slots[1..]), rest);
    }
  }

  lemma MoveRight(a: seq<byte>, b: seq<byte>, c: seq<byte>, d: seq<byte>)
    ensures a + (b + c) + d == a + (b + (c + d))
    ensures b == c == [] ==> a + b + d == a + d
  {
    if b == [] {
      assert a + b == a;
    }
  }

  lemma BehindStarts(se: SecureElement, q: Payload, slots: seq<nat>, rest: seq<byte>)
    requires Listable(q, slots) && |slots| > 1
    ensures var behind := BehindFirst(se, q, slots, rest);
      behind != [] && behind[0] == 44 && behind[1..] == Listed(se, q, slots[1..]) + rest
  {
    hide SlotShaped, Listed;
  }

  lemma {:induction false} ItemsRead(se: SecureElement, q: Payload, slots: seq<nat>, rest: seq<byte>)
    requires Listable(q, slots) && rest != [] && rest[0] == 93
    ensures ReadItems(Listed(se, q, slots) + rest) == Got(ListingsOf(se, q, slots), rest)
    decreases |slots|
  {
    hide Item, ReadItem, ReadItems, ListingOf, SlotShaped, RecordOfSlot, Listed, Ascii;
    if slots == [] {
      NothingListed(se, q, rest);
    } else {
      var first, behind := q.slots[slots[0]], BehindFirst(se, q, slots, rest);
      var listing := ListingOf(RecordOfSlot(se, first), slots[0]);
      ListedSplits(se, q, slots, rest);
      ItemRead(se, first, slots[0], behind);
      ItemStarts(se, first, slots[0], behind);
      if |slots| == 1 {
        OneMore(Listed(se, q, slots) + rest, listing, behind, Got([], rest));
      } else {
        ItemsRead(se, q, slots[1..], rest);
        BehindStarts(se, q, slots, rest);
        OneMore(Listed(se, q, slots) + rest, listing, behind, Got(ListingsOf(se, q, slots[1..]), rest));
      }
    }
  }

  lemma NothingListed(se: SecureElement, q: Payload, rest: seq<byte>)
    requires rest != [] && rest[0] == 93
    ensures ReadItems(Listed(se, q, []) + rest) == Got([], rest)
  {
    assert Listed(se, q, []) + rest == rest;
  }

  lemma ItemStarts(se: SecureElement, s: Slot, slot: nat, rest: seq<byte>)
    requires SlotShaped(s) && s.credentialIdLength <= 32
    ensures (Item(se, s, slot) + rest)[0] == 123
  {
    hide Decimal, Hex, Truth, RecordOfSlot, ItemTail;
    assert Ascii("{\"slot\":")[0] == 123;
  }

  /** What a page tells: where it starts, how many were asked for, how many there are and fit, the credentials, and
      how to go on. */
  datatype PageView = PageView(
    cursor: nat, limit: nat, total: nat, capacity: nat, items: seq<Listing>,
    returned: nat, nextCursor: nat, hasMore: bool)

  function ReadPage(t: seq<byte>): Option<PageView> {
    var cursor := NumberAt(t, "{\"protocolVersion\":1,\"cursor\":");
    if cursor.Fail? then None else
    var limit := NumberAt(cursor.rest, ",\"limit\":");
    if limit.Fail? then None else
    var total := NumberAt(limit.rest, ",\"total\":");
    if total.Fail? then None else
    var capacity := NumberAt(total.rest, ",\"capacity\":");
    if capacity.Fail? || !(Ascii(",\"storeFormatVersion\":6,\"items\":[") <= capacity.rest) then None else
    var items := ReadItems(capacity.rest[|",\"storeFormatVersion\":6,\"items\":["|..]);
    if items.Fail? then None else
    var returned := NumberAt(items.rest, "],\"returned\":");
    if returned.Fail? then None else
    var next := NumberAt(returned.rest, ",\"nextCursor\":");
    if next.Fail? then None else
    var more := FlagAt(next.rest, ",\"hasMore\":");
    if more.Fail? || more.rest != Ascii("}") then None else
    Some(PageView(cursor.value, limit.value, total.value, capacity.value, items.value, returned.value, next.value,
                  more.value))
  }

  lemma PageHeadSplits(p: Platform, q: Payload, cursor: nat, limit: nat, rest: seq<byte>)
    ensures PageHead(p, q, cursor, limit) + rest ==
      Ascii("{\"protocolVersion\":1,\"cursor\":") + Decimal(cursor)
      + (Ascii(",\"limit\":") + Decimal(limit)
         + (Ascii(",\"total\":") + Decimal(q.credentialCount)
            + (Ascii(",\"capacity\":") + Decimal(p.maxCredentials)
               + (Ascii(",\"storeFormatVersion\":6,\"items\":[") + rest))))
  {
    hide Ascii, Decimal;
    var a := Ascii("{\"protocolVersion\":1,\"cursor\":") + Decimal(cursor);
    var b := a + Ascii(",\"limit\":") + Decimal(limit);
    var c := b + Ascii(",\"total\":") + Decimal(q.credentialCount);
    var d := c + Ascii(",\"capacity\":") + Decimal(p.maxCredentials);
    var t5 := Ascii(",\"storeFormatVersion\":6,\"items\":[") + rest;
    var t4 := Ascii(",\"capacity\":") + Decimal(p.maxCredentials) + t5;
    var t3 := Ascii(",\"total\":") + Decimal(q.credentialCount) + t4;
    assert d + Ascii(",\"storeFormatVersion\":6,\"items\":[") + rest == d + t5;
    Shift(c, Ascii(",\"capacity\":"), Decimal(p.maxCredentials), t5);
    Shift(b, Ascii(",\"total\":"), Decimal(q.credentialCount), t4);
    Shift(a, Ascii(",\"limit\":"), Decimal(limit), t3);
  }

  lemma PageTailSplits(returned: nat, nextCursor: nat, hasMore: bool)
    ensures PageTail(returned, nextCursor, hasMore) ==
      Ascii("],\"returned\":") + Decimal(returned)
      + (Ascii(",\"nextCursor\":") + Decimal(nextCursor) + (Ascii(",\"hasMore\":") + Truth(hasMore) + Ascii("}")))
  {
    hide Ascii, Decimal, Truth;
    var a := Ascii("],\"returned\":") + Decimal(returned);
    var b := a + Ascii(",\"nextCursor\":") + Decimal(nextCursor);
    Shift(b, Ascii(",\"hasMore\":"), Truth(hasMore), Ascii("}"));
    Shift(a, Ascii(",\"nextCursor\":"), Decimal(nextCursor), Ascii(",\"hasMore\":") + Truth(hasMore) + Ascii("}"));
  }

  /** A page is read back as exactly the credentials in its slots, with its place among the others. */
  lemma PageRead(p: Platform, se: SecureElement, q: Payload, cursor: nat, limit: nat, slots: seq<nat>,
                 nextCursor: nat, hasMore: bool)
    requires Listable(q, slots)
    ensures ReadPage(PageHead(p, q, cursor, limit) + Listed(se, q, slots) + PageTail(|slots|, nextCursor, hasMore))
         == Some(PageView(cursor, limit, q.credentialCount, p.maxCredentials, ListingsOf(se, q, slots), |slots|,
                          nextCursor, hasMore))
  {
    hide Decimal, Truth, NumberAt, FlagAt, ReadItems, Listed, PageHead, PageTail, Listable, ListingsOf;
    var tail := PageTail(|slots|, nextCursor, hasMore);
    var t5 := Ascii(",\"storeFormatVersion\":6,\"items\":[") + (Listed(se, q, slots) + tail);
    var t4 := Ascii(",\"capacity\":") + Decimal(p.maxCredentials) + t5;
    var t3 := Ascii(",\"total\":") + Decimal(q.credentialCount) + t4;
    var t2 := Ascii(",\"limit\":") + Decimal(limit) + t3;
    assert PageHead(p, q, cursor, limit) + Listed(se, q, slots) + tail
        == PageHead(p, q, cursor, limit) + (Listed(se, q, slots) + tail);
    PageHeadSplits(p, q, cursor, limit, Listed(se, q, slots) + tail);
    PageKeysRead(cursor, limit, q.credentialCount, p.maxCredentials, t5);
    assert t5[|",\"storeFormatVersion\":6,\"items\":["|..] == Listed(se, q, slots) + tail;
    PageTailStarts(|slots|, nextCursor, hasMore);
    ItemsRead(se, q, slots, tail);
    PageTailReads(|slots|, nextCursor, hasMore);
  }

  lemma PageKeysRead(cursor: nat, limit: nat, total: nat, capacity: nat, rest: seq<byte>)
    requires !StartsWithDigit(rest)
    ensures var t4 := Ascii(",\"capacity\":") + Decimal(capacity) + rest;
      var t3 := Ascii(",\"total\":") + Decimal(total) + t4;
      var t2 := Ascii(",\"limit\":") + Decimal(limit) + t3;
      && NumberAt(Ascii("{\"protocolVersion\":1,\"cursor\":") + Decimal(cursor) + t2,
                  "{\"protocolVersion\":1,\"cursor\":") == Got(cursor, t2)
      && NumberAt(t2, ",\"limit\":") == Got(limit, t3)
      && NumberAt(t3, ",\"total\":") == Got(total, t4)
      && NumberAt(t4, ",\"capacity\":") == Got(capacity, rest)
  {
    hide Decimal, NumberAt;
    var t4 := Ascii(",\"capacity\":") + Decimal(capacity) + rest;
    var t3 := Ascii(",\"total\":") + Decimal(total) + t4;
    var t2 := Ascii(",\"limit\":") + Decimal(limit) + t3;
    NumberRead("{\"protocolVersion\":1,\"cursor\":", cursor, t2);
    NumberRead(",\"limit\":", limit, t3);
    NumberRead(",\"total\":", total, t4);
    NumberRead(",\"capacity\":", capacity, rest);
  }

  lemma PageTailStarts(returned: nat, nextCursor: nat, hasMore: bool)
    ensures PageTail(returned, nextCursor, hasMore) != [] && PageTail(returned, nextCursor, hasMore)[0] == 93
  {
    hide Decimal, Truth;
    assert Ascii("],\"returned\":")[0] == 93;
  }

  lemma PageTailReads(returned: nat, nextCursor: nat, hasMore: bool)
    ensures var tail := PageTail(returned, nextCursor, hasMore);
      var a := NumberAt(tail, "],\"returned\":");
      && a.Got? && a.value == returned
      && var b := NumberAt(a.rest, ",\"nextCursor\":");
         b.Got? && b.value == nextCursor && FlagAt(b.rest, ",\"hasMore\":") == Got(hasMore, Ascii("}"))
  {
    hide Decimal, Truth, NumberAt, FlagAt, PageTail;
    var t3 := Ascii(",\"hasMore\":") + Truth(hasMore) + Ascii("}");
    var t2 := Ascii(",\"nextCursor\":") + Decimal(nextCursor) + t3;
    PageTailSplits(returned, nextCursor, hasMore);
    NumberRead("],\"returned\":", returned, t2);
    NumberRead(",\"nextCursor\":", nextCursor, t3);
    FlagRead(",\"hasMore\":", hasMore, Ascii("}"));
  }
}
