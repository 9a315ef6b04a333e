/** The host's CBOR codec: values, the encoder and the decoder of the manager application. A subset of RFC 8949
    with definite lengths, arguments up to 32 bits and the shortest head for each. */
module HostCbor {
  import opened Bits
  import opened Words
  import opened StoreFormat

  type i64 = n: int | -0x8000_0000_0000_0000 <= n < 0x8000_0000_0000_0000

  datatype Entry = Entry(key: Value, value: Value)

  datatype Value =
    | Integer(n: i64)
    | Bytes(bytes: seq<byte>)
    | Text(text: seq<byte>)
    | Array(items: seq<Value>)
    | Map(entries: seq<Entry>)
    | Bool(b: bool)
    | Null

  // ---- Heads ----

  /** write_length: an argument of 2^32 or more loses its upper bits. */
  function Head(major: nat, value: nat): (r: seq<byte>)
    requires major < 8
    ensures 1 <= |r| <= 5
  {
    if value < 24 then [32 * major + value]
    else if value < 0x100 then [32 * major + 24, value]
    else if value < 0x1_0000 then [32 * major + 25] + Be16(value)
    else [32 * major + 26] + Be32(value % 0x1_0000_0000)
  }

  /** Heads are the shortest (section 4.2.1 of RFC 8949), as far as they are written in full. */
  lemma HeadIsShortest(major: nat, value: u32)
    requires major < 8
    ensures |Head(major, value)|
         == if value < 24 then 1 else if value < 0x100 then 2 else if value < 0x1_0000 then 3 else 5
    ensures Head(major, value)[0] / 32 == major
  {
  }

  datatype Read = Read(value: nat, end: nat)

  /** read_length */
  function ReadLength(b: seq<byte>, at: nat, additional: nat): (r: Option<Read>)
    requires at <= |b|
    ensures r.Some? ==> at <= r.value.end <= |b| && r.value.value < 0x1_0000_0000
  {
    if additional < 24 then Some(Read(additional, at))
    else if additional == 24 && at + 1 <= |b| then Some(Read(b[at], at + 1))
    else if additional == 25 && at + 2 <= |b| then Some(Read(ReadBe16(b, at), at + 2))
    else if additional == 26 && at + 4 <= |b| then Some(Read(ReadBe32(b, at), at + 4))
    else None
  }

  /** `s` stands in `b` at `at`. */
  predicate Stands(b: seq<byte>, at: nat, s: seq<byte>) {
    at + |s| <= |b| && b[at..at + |s|] == s
  }

  lemma StandsSplit(b: seq<byte>, at: nat, s: seq<byte>, t: seq<byte>)
    ensures Stands(b, at, s + t) <==> Stands(b, at, s) && Stands(b, at + |s|, t)
    ensures Stands(b, at, s + t) ==> at + |s| + |t| <= |b|
  {
    if at + |s| + |t| <= |b| {
      var w := b[at..at + |s| + |t|];
      assert w == b[at..at + |s|] + b[at + |s|..at + |s| + |t|];
      assert w[..|s|] == b[at..at + |s|] && w[|s|..] == b[at + |s|..at + |s| + |t|];
      assert (s + t)[..|s|] == s && (s + t)[|s|..] == t;
    }
  }

  /** A head is read back as its major type and its argument modulo 2^32. */
  lemma HeadReads(b: seq<byte>, at: nat, major: nat, value: nat)
    requires major < 8 && Stands(b, at, Head(major, value))
    ensures at < |b| && b[at] / 32 == major
    ensures ReadLength(b, at + 1, b[at] % 32) == Some(Read(value % 0x1_0000_0000, at + |Head(major, value)|))
  {
    var h := Head(major, value);
    StandsAt(b, at, h, 0);
    if value >= 0x1_0000 {
      assert h == [32 * major + 26] + Be32(value % 0x1_0000_0000);
      WideHeadReads(b, at, 32 * major + 26, value % 0x1_0000_0000);
    } else if value >= 0x100 {
      assert h == [32 * major + 25] + Be16(value);
      StandsAt(b, at, h, 1);
      StandsAt(b, at, h, 2);
    } else if value >= 24 {
      StandsAt(b, at, h, 1);
    }
  }

  lemma StandsAt(b: seq<byte>, at: nat, s: seq<byte>, i: nat)
    requires Stands(b, at, s) && i < |s|
    ensures at + i < |b| && b[at + i] == s[i]
  {
    assert b[at..at + |s|][i] == b[at + i];
  }

  lemma WideHeadReads(b: seq<byte>, at: nat, first: byte, n: u32)
    requires Stands(b, at, [first] + Be32(n))
    ensures at + 5 <= |b| && ReadBe32(b, at + 1) == n
  {
    var h := [first] + Be32(n);
    StandsAt(b, at, h, 1);
    StandsAt(b, at, h, 2);
    StandsAt(b, at, h, 3);
    StandsAt(b, at, h, 4);
    Be32RoundTrip(n);
  }

  // ---- Encoder ----

  function Encode(v: Value): (r: seq<byte>)
    ensures |r| >= 1
    decreases v
  {
    match v
    case Integer(n) => if n >= 0 then Head(0, n) else Head(1, -(n as int) - 1)
    case Bytes(b) => Head(2, |b|) + b
    case Text(t) => Head(3, |t|) + t
    case Array(items) => Head(4, |items|) + EncodeItems(items)
    case Map(entries) => Head(5, |entries|) + EncodeEntries(entries)
    case Bool(b) => [if b then 0xf5 else 0xf4]
    case Null => [0xf6]
  }

  function EncodeItems(items: seq<Value>): seq<byte>
    decreases items
  {
    if items == [] then [] else Encode(items[0]) + EncodeItems(items[1..])
  }

  function EncodeEntries(entries: seq<Entry>): seq<byte>
    decreases entries
  {
    if entries == [] then []
    else EncodeEntry(entries[0]) + EncodeEntries(entries[1..])
  }

  function EncodeEntry(e: Entry): seq<byte>
    decreases e
  {
    Encode(e.key) + Encode(e.value)
  }

  /** Examples of appendix A of RFC 8949. */
  lemma StandardExamples()
    ensures Encode(Integer(10)) == [0x0a] && Encode(Integer(24)) == [0x18, 0x18]
    ensures Encode(Integer(1000)) == [0x19, 0x03, 0xe8] && Encode(Integer(-1000)) == [0x39, 0x03, 0xe7]
    ensures Encode(Integer(1000000)) == [0x1a, 0x00, 0x0f, 0x42, 0x40]
    ensures Encode(Bytes([1, 2, 3, 4])) == [0x44, 1, 2, 3, 4] && Encode(Text([0x61])) == [0x61, 0x61]
    ensures Encode(Bool(false)) == [0xf4] && Encode(Bool(true)) == [0xf5] && Encode(Null) == [0xf6]
    ensures Encode(Array([Integer(1), Integer(2)])) == [0x82, 1, 2]
    ensures Encode(Map([Entry(Integer(1), Integer(2))])) == [0xa1, 1, 2]
  {
    var items: seq<Value> := [Integer(1), Integer(2)];
    assert items[1..] == [Integer(2)] && [Integer(2)][1..] == [];
    var entries: seq<Entry> := [Entry(Integer(1), Integer(2))];
    assert entries[1..] == [];
  }

  // ---- Decoder ----

  datatype Decoded<T> = Decoded(value: T, end: nat)

  /** decode_value; `utf8` is std::str::from_utf8 succeeding. */
  function Decode(utf8: seq<byte> -> bool, b: seq<byte>, at: nat): (r: Option<Decoded<Value>>)
    requires at <= |b|
    ensures r.Some? ==> at < r.value.end <= |b|
    decreases |b| - at, 0, 0
  {
    if at == |b| then None
    else
      var major, additional := b[at] / 32, b[at] % 32;
      if major == 7 then
        if additional == 20 then Some(Decoded(Bool(false), at + 1))
        else if additional == 21 then Some(Decoded(Bool(true), at + 1))
        else if additional == 22 then Some(Decoded(Null, at + 1))
        else None
      else
        match ReadLength(b, at + 1, additional)
        case None => None
        case Some(Read(n, body)) => DecodeArgument(utf8, b, major, n, body)
  }

  /** The value behind a head with argument `n`. */
  function DecodeArgument(utf8: seq<byte> -> bool, b: seq<byte>, major: nat, n: u32, body: nat)
    : (r: Option<Decoded<Value>>)
    requires body <= |b|
    ensures r.Some? ==> body <= r.value.end <= |b|
    decreases |b| - body, 2, 0
  {
    if major == 0 then Some(Decoded(Integer(n), body))
    else if major == 1 then Some(Decoded(Integer(-(n as int) - 1), body))
    else if major == 2 then
      if body + n <= |b| then Some(Decoded(Bytes(b[body..body + n]), body + n)) else None
    else if major == 3 then
      if body + n <= |b| && utf8(b[body..body + n]) then Some(Decoded(Text(b[body..body + n]), body + n)) else None
    else if major == 4 then
      match DecodeItems(utf8, b, body, n)
      case None => None
      case Some(Decoded(items, end)) => Some(Decoded(Array(items), end))
    else if major == 5 then
      match DecodeEntries(utf8, b, body, n)
      case None => None
      case Some(Decoded(entries, end)) => Some(Decoded(Map(entries), end))
    else None
  }

  function DecodeItems(utf8: seq<byte> -> bool, b: seq<byte>, at: nat, count: nat): (r: Option<Decoded<seq<Value>>>)
    requires at <= |b|
    ensures r.Some? ==> at <= r.value.end <= |b| && |r.value.value| == count
    decreases |b| - at, 1, count
  {
    if count == 0 then Some(Decoded([], at))
    else
      match Decode(utf8, b, at)
      case None => None
      case Some(Decoded(v, next)) =>
        match DecodeItems(utf8, b, next, count - 1)
        case None => None
        case Some(Decoded(items, end)) => Some(Decoded([v] + items, end))
  }

  function DecodeEntries(utf8: seq<byte> -> bool, b: seq<byte>, at: nat, count: nat): (r: Option<Decoded<seq<Entry>>>)
    requires at <= |b|
    ensures r.Some? ==> at <= r.value.end <= |b| && |r.value.value| == count
    decreases |b| - at, 1, count
  {
    if count == 0 then Some(Decoded([], at))
    else
      match Decode(utf8, b, at)
      case None => None
      case Some(Decoded(key, middle)) =>
        match Decode(utf8, b, middle)
        case None => None
        case Some(Decoded(value, next)) =>
          match DecodeEntries(utf8, b, next, count - 1)
          case None => None
          case Some(Decoded(entries, end)) => Some(Decoded([Entry(key, value)] + entries, end))
  }

  // ---- Round trip ----

  /** Every integer is in [-2^32, 2^32) and every length below 2^32. */
  predicate InRange(v: Value)
    decreases v
  {
    match v
    case Integer(n) => -0x1_0000_0000 <= n < 0x1_0000_0000
    case Bytes(b) => |b| < 0x1_0000_0000
    case Text(t) => |t| < 0x1_0000_0000
    case Array(items) => |items| < 0x1_0000_0000 && forall i :: 0 <= i < |items| ==> InRange(items[i])
    case Map(entries) => |entries| < 0x1_0000_0000 && forall i :: 0 <= i < |entries| ==> EntryInRange(entries[i])
    case _ => true
  }

  predicate EntryInRange(e: Entry)
    decreases e
  {
    InRange(e.key) && InRange(e.value)
  }

  /** Every text is one the host's String type can hold. */
  predicate WellFormed(utf8: seq<byte> -> bool, v: Value)
    decreases v
  {
    match v
    case Text(t) => utf8(t)
    case Array(items) => forall i :: 0 <= i < |items| ==> WellFormed(utf8, items[i])
    case Map(entries) => forall i :: 0 <= i < |entries| ==> EntryWellFormed(utf8, entries[i])
    case _ => true
  }

  predicate EntryWellFormed(utf8: seq<byte> -> bool, e: Entry)
    decreases e
  {
    WellFormed(utf8, e.key) && WellFormed(utf8, e.value)
  }

  /** Decoding gave `v` and stopped at `end` if `good`; otherwise it did not give `v`. */
  predicate Returns<T(==)>(r: Option<Decoded<T>>, good: bool, v: T, end: nat) {
    if good then r == Some(Decoded(v, end)) else r.None? || r.value.value != v
  }

  lemma HeadDecodes(utf8: seq<byte> -> bool, b: seq<byte>, at: nat, major: nat, value: nat)
    requires major < 7 && Stands(b, at, Head(major, value))
    ensures Decode(utf8, b, at)
         == DecodeArgument(utf8, b, major, value % 0x1_0000_0000, at + |Head(major, value)|)
  {
    hide DecodeArgument, Head;
    HeadReads(b, at, major, value);
  }

  lemma StringDecodes(utf8: seq<byte> -> bool, b: seq<byte>, at: nat, major: nat, s: seq<byte>)
    requires major < 7 && Stands(b, at, Head(major, |s|) + s)
    ensures var n, body := |s| % 0x1_0000_0000, at + |Head(major, |s|)|;
      && body + |s| <= |b| && b[body..body + |s|] == s
      && Decode(utf8, b, at) == DecodeArgument(utf8, b, major, n, body)
  {
    hide DecodeArgument, Head, Decode;
    StandsSplit(b, at, Head(major, |s|), s);
    HeadDecodes(utf8, b, at, major, |s|);
  }

  /** Wherever an encoded value stands, decoding there returns the value and the offset behind it if the value
      is in range, and never the value if it is not. */
  lemma {:induction false} DecodeEncode(utf8: seq<byte> -> bool, v: Value, b: seq<byte>, at: nat)
    requires WellFormed(utf8, v) && Stands(b, at, Encode(v))
    ensures Returns(Decode(utf8, b, at), InRange(v), v, at + |Encode(v)|)
    decreases v, 0
  {
    hide Decode, Head, DecodeItems, DecodeEntries, Stands;
    match v {
      case Integer(n) =>
        var major, value := if n >= 0 then 0 else 1, if n >= 0 then n as int else -(n as int) - 1;
        HeadDecodes(utf8, b, at, major, value);
      case Bytes(s) => StringDecodes(utf8, b, at, 2, s);
      case Text(s) => StringDecodes(utf8, b, at, 3, s);
      case Array(items) => ArrayDecodes(utf8, items, b, at);
      case Map(entries) => MapDecodes(utf8, entries, b, at);
      case Bool(_) => SimpleDecodes(utf8, b, at);
      case Null => SimpleDecodes(utf8, b, at);
    }
  }

  lemma {:induction false} ArrayDecodes(utf8: seq<byte> -> bool, items: seq<Value>, b: seq<byte>, at: nat)
    requires WellFormed(utf8, Array(items)) && Stands(b, at, Encode(Array(items)))
    ensures Returns(Decode(utf8, b, at), InRange(Array(items)), Array(items), at + |Encode(Array(items))|)
    decreases items, 1
  {
    hide Decode, Head, DecodeItems, EncodeItems, Stands;
    var head := Head(4, |items|);
    StandsSplit(b, at, head, EncodeItems(items));
    HeadDecodes(utf8, b, at, 4, |items|);
    if |items| < 0x1_0000_0000 {
      DecodeEncodeItems(utf8, items, b, at + |head|);
    }
  }

  lemma {:induction false} MapDecodes(utf8: seq<byte> -> bool, entries: seq<Entry>, b: seq<byte>, at: nat)
    requires WellFormed(utf8, Map(entries)) && Stands(b, at, Encode(Map(entries)))
    ensures Returns(Decode(utf8, b, at), InRange(Map(entries)), Map(entries), at + |Encode(Map(entries))|)
    decreases entries, 1
  {
    hide Decode, Head, DecodeEntries, EncodeEntries, Stands;
    var head := Head(5, |entries|);
    StandsSplit(b, at, head, EncodeEntries(entries));
    HeadDecodes(utf8, b, at, 5, |entries|);
    if |entries| < 0x1_0000_0000 {
      DecodeEncodeEntries(utf8, entries, b, at + |head|);
    }
  }

  lemma SimpleDecodes(utf8: seq<byte> -> bool, b: seq<byte>, at: nat)
    ensures Stands(b, at, [0xf4]) ==> Decode(utf8, b, at) == Some(Decoded(Bool(false), at + 1))
    ensures Stands(b, at, [0xf5]) ==> Decode(utf8, b, at) == Some(Decoded(Bool(true), at + 1))
    ensures Stands(b, at, [0xf6]) ==> Decode(utf8, b, at) == Some(Decoded(Null, at + 1))
  {
    if at < |b| {
      assert b[at] == b[at..at + 1][0];
    }
  }

  lemma {:induction false} DecodeEncodeItems(utf8: seq<byte> -> bool, items: seq<Value>, b: seq<byte>, at: nat)
    requires forall i :: 0 <= i < |items| ==> WellFormed(utf8, items[i])
    requires at <= |b| && Stands(b, at, EncodeItems(items))
    ensures Returns(DecodeItems(utf8, b, at, |items|), forall i :: 0 <= i < |items| ==> InRange(items[i]),
                    items, at + |EncodeItems(items)|)
    decreases items, 0
  {
    hide Decode, Encode, InRange, WellFormed, Stands;
    if items != [] {
      StandsSplit(b, at, Encode(items[0]), EncodeItems(items[1..]));
      DecodeEncode(utf8, items[0], b, at);
      if InRange(items[0]) {
        DecodeEncodeItems(utf8, items[1..], b, at + |Encode(items[0])|);
        assert items == [items[0]] + items[1..];
        assert (forall i :: 0 <= i < |items| ==> InRange(items[i]))
          <==> (forall i :: 0 <= i < |items[1..]| ==> InRange(items[1..][i])) by {
          assert forall i :: 1 <= i < |items| ==> items[i] == items[1..][i - 1];
        }
      }
    }
  }

  lemma {:induction false} DecodeEncodeEntries(utf8: seq<byte> -> bool, entries: seq<Entry>, b: seq<byte>, at: nat)
    requires forall i :: 0 <= i < |entries| ==> EntryWellFormed(utf8, entries[i])
    requires at <= |b| && Stands(b, at, EncodeEntries(entries))
    ensures Returns(DecodeEntries(utf8, b, at, |entries|), forall i :: 0 <= i < |entries| ==> EntryInRange(entries[i]),
                    entries, at + |EncodeEntries(entries)|)
    decreases entries, 0
  {
    hide Decode, DecodeEntries, EncodeEntry, EntryInRange, EntryWellFormed, Stands;
    if entries != [] {
      StandsSplit(b, at, EncodeEntry(entries[0]), EncodeEntries(entries[1..]));
      DecodeEncodeEntry(utf8, entries[0], b, at, |entries|);
      if EntryInRange(entries[0]) {
        DecodeEncodeEntries(utf8, entries[1..], b, at + |EncodeEntry(entries[0])|);
        assert entries == [entries[0]] + entries[1..];
        assert (forall i :: 0 <= i < |entries| ==> EntryInRange(entries[i]))
          <==> (forall i :: 0 <= i < |entries[1..]| ==> EntryInRange(entries[1..][i])) by {
          assert forall i :: 1 <= i < |entries| ==> entries[i] == entries[1..][i - 1];
        }
      }
    } else {
      NoEntries(utf8, b, at);
    }
  }

  lemma NoEntries(utf8: seq<byte> -> bool, b: seq<byte>, at: nat)
    requires at <= |b|
    ensures DecodeEntries(utf8, b, at, 0) == Some(Decoded([], at))
  {
  }

  /** The first of `count` entries: in range, it is decoded and the rest follows; otherwise it is not found. */
  lemma {:induction false} DecodeEncodeEntry(utf8: seq<byte> -> bool, e: Entry, b: seq<byte>, at: nat, count: nat)
    requires EntryWellFormed(utf8, e) && Stands(b, at, EncodeEntry(e)) && count > 0 && at + |EncodeEntry(e)| <= |b|
    ensures var r := DecodeEntries(utf8, b, at, count);
      if EntryInRange(e) then
        r == match DecodeEntries(utf8, b, at + |EncodeEntry(e)|, count - 1)
             case None => None
             case Some(Decoded(entries, end)) => Some(Decoded([e] + entries, end))
      else r.None? || r.value.value[0] != e
    decreases e, 0
  {
    hide Decode, Encode, InRange, WellFormed, Stands;
    StandsSplit(b, at, Encode(e.key), Encode(e.value));
    DecodeEncode(utf8, e.key, b, at);
    if InRange(e.key) {
      DecodeEncode(utf8, e.value, b, at + |Encode(e.key)|);
    }
  }

  /** The host's codec round trip: decode(encode(v) ++ rest) is (v, |encode(v)|) exactly if v is in range. */
  lemma RoundTripIff(utf8: seq<byte> -> bool, v: Value, rest: seq<byte>)
    requires WellFormed(utf8, v)
    ensures Decode(utf8, Encode(v) + rest, 0) == Some(Decoded(v, |Encode(v)|)) <==> InRange(v)
  {
    var b := Encode(v) + rest;
    assert b[0..|Encode(v)|] == Encode(v);
    DecodeEncode(utf8, v, b, 0);
  }

  // ---- The loops of the implementation ----

  /** encode_value: appends to the output buffer it is handed. */
  method EncodeValue(v: Value, output: seq<byte>) returns (r: seq<byte>)
    ensures r == output + Encode(v)
    decreases v, 1
  {
    hide Head, EncodeItems, EncodeEntries;
    match v {
      case Integer(n) => r := output + if n >= 0 then Head(0, n) else Head(1, -(n as int) - 1);
      case Bytes(b) => r := output + Head(2, |b|) + b;
      case Text(t) => r := output + Head(3, |t|) + t;
      case Array(items) => r := EncodeArray(items, output + Head(4, |items|));
      case Map(entries) => r := EncodeMap(entries, output + Head(5, |entries|));
      case Bool(b) => r := output + [if b then 0xf5 else 0xf4];
      case Null => r := output + [0xf6];
    }
  }

  /** The loop over an array's items. */
  method EncodeArray(items: seq<Value>, output: seq<byte>) returns (r: seq<byte>)
    ensures r == output + EncodeItems(items)
    decreases items, 0
  {
    hide Encode;
    r := output;
    assert items[0..] == items;
    for i := 0 to |items|
      invariant r + EncodeItems(items[i..]) == output + EncodeItems(items)
    {
      assert items[i..][0] == items[i] && items[i..][1..] == items[i + 1..];
      assert r + (Encode(items[i]) + EncodeItems(items[i + 1..]))
        == (r + Encode(items[i])) + EncodeItems(items[i + 1..]);
      r := EncodeValue(items[i], r);
    }
  }

  /** The loop over a map's entries. */
  method EncodeMap(entries: seq<Entry>, output: seq<byte>) returns (r: seq<byte>)
    ensures r == output + EncodeEntries(entries)
    decreases entries, 0
  {
    hide Encode;
    r := output;
    assert entries[0..] == entries;
    for i := 0 to |entries|
      invariant r + EncodeEntries(entries[i..]) == output + EncodeEntries(entries)
    {
      var e := entries[i];
      assert entries[i..][0] == e && entries[i..][1..] == entries[i + 1..];
      assert r + (EncodeEntry(e) + EncodeEntries(entries[i + 1..]))
        == (r + EncodeEntry(e)) + EncodeEntries(entries[i + 1..]);
      r := EncodePair(e, r);
    }
  }

  method EncodePair(e: Entry, output: seq<byte>) returns (r: seq<byte>)
    ensures r == output + EncodeEntry(e)
    decreases e, 0
  {
    hide Encode;
    assert output + EncodeEntry(e) == (output + Encode(e.key)) + Encode(e.value);
    r := EncodeValue(e.key, output);
    r := EncodeValue(e.value, r);
  }

  /** decode_value */
  method DecodeValue(utf8: seq<byte> -> bool, b: seq<byte>, at: nat) returns (r: Option<Decoded<Value>>)
    requires at <= |b|
    ensures r == Decode(utf8, b, at)
    decreases |b| - at, 0
  {
    hide DecodeItems, DecodeEntries;
    if at == |b| {
      return None;
    }
    var major, additional := b[at] / 32, b[at] % 32;
    if major == 7 {
      return if additional == 20 then Some(Decoded(Bool(false), at + 1))
             else if additional == 21 then Some(Decoded(Bool(true), at + 1))
             else if additional == 22 then Some(Decoded(Null, at + 1))
             else None;
    }
    var head := ReadLength(b, at + 1, additional);
    if head.None? {
      return None;
    }
    var length, offset := head.value.value, head.value.end;
    match major {
      case 0 => r := Some(Decoded(Integer(length), offset));
      case 1 => r := Some(Decoded(Integer(-(length as int) - 1), offset));
      case 2 =>
        var end := offset + length;
        r := if end <= |b| then Some(Decoded(Bytes(b[offset..end]), end)) else None;
      case 3 =>
        var end := offset + length;
        r := if end <= |b| && utf8(b[offset..end]) then Some(Decoded(Text(b[offset..end]), end)) else None;
      case 4 =>
        var items := DecodeArray(utf8, b, offset, length);
        r := if items.Some? then Some(Decoded(Array(items.value.value), items.value.end)) else None;
      case 5 =>
        var entries := DecodeMap(utf8, b, offset, length);
        r := if entries.Some? then Some(Decoded(Map(entries.value.value), entries.value.end)) else None;
      case _ => r := None;
    }
  }

  /** The loop over an array's items, threading the offset. */
  method DecodeArray(utf8: seq<byte> -> bool, b: seq<byte>, start: nat, count: nat)
    returns (r: Option<Decoded<seq<Value>>>)
    requires start <= |b|
    ensures r == DecodeItems(utf8, b, start, count)
    decreases |b| - start, 1
  {
    hide Decode;
    var items, offset := [], start;
    PrefixedNothing(DecodeItems(utf8, b, start, count));
    for i := 0 to count
      invariant start <= offset <= |b| && |items| == i
      invariant DecodeItems(utf8, b, start, count) == Prefixed(items, DecodeItems(utf8, b, offset, count - i))
    {
      var item := DecodeValue(utf8, b, offset);
      if item.None? {
        return None;
      }
      PrefixedMore(items, [item.value.value], DecodeItems(utf8, b, item.value.end, count - i - 1));
      items, offset := items + [item.value.value], item.value.end;
    }
    assert items + [] == items;
    return Some(Decoded(items, offset));
  }

  /** The loop over a map's entries. */
  method DecodeMap(utf8: seq<byte> -> bool, b: seq<byte>, start: nat, count: nat)
    returns (r: Option<Decoded<seq<Entry>>>)
    requires start <= |b|
    ensures r == DecodeEntries(utf8, b, start, count)
    decreases |b| - start, 1
  {
    hide Decode;
    var entries, offset := [], start;
    PrefixedNothing(DecodeEntries(utf8, b, start, count));
    for i := 0 to count
      invariant start <= offset <= |b| && |entries| == i
      invariant DecodeEntries(utf8, b, start, count) == Prefixed(entries, DecodeEntries(utf8, b, offset, count - i))
    {
      var key := DecodeValue(utf8, b, offset);
      if key.None? {
        return None;
      }
      var value := DecodeValue(utf8, b, key.value.end);
      if value.None? {
        return None;
      }
      var entry := Entry(key.value.value, value.value.value);
      PrefixedMore(entries, [entry], DecodeEntries(utf8, b, value.value.end, count - i - 1));
      entries, offset := entries + [entry], value.value.end;
    }
    assert entries + [] == entries;
    return Some(Decoded(entries, offset));
  }

  ghost function Prefixed<T>(done: seq<T>, r: Option<Decoded<seq<T>>>): Option<Decoded<seq<T>>> {
    match r
    case None => None
    case Some(Decoded(rest, end)) => Some(Decoded(done + rest, end))
  }

  lemma PrefixedNothing<T>(r: Option<Decoded<seq<T>>>)
    ensures Prefixed([], r) == r
  {
    if r.Some? {
      assert [] + r.value.value == r.value.value;
    }
  }

  lemma PrefixedMore<T>(done: seq<T>, more: seq<T>, r: Option<Decoded<seq<T>>>)
    ensures Prefixed(done, Prefixed(more, r)) == Prefixed(done + more, r)
  {
    if r.Some? {
      assert done + (more + r.value.value) == (done + more) + r.value.value;
    }
  }
}
