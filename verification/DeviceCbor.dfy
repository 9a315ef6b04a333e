/** The firmware's CBOR reader and writer, and their agreement with the host's codec. */
module DeviceCbor {
  import opened Bits
  import opened Words
  import opened StoreFormat
  import opened HostCbor

  // ---- What skipping means ----

  /** The offset behind the item at `at`, if the reader accepts it. */
  function Skip(b: seq<byte>, at: nat): (r: Option<nat>)
    requires at <= |b|
    ensures r.Some? ==> at < r.value <= |b|
    decreases |b| - at, 0, 0
  {
    if at == |b| then None
    else
      var major, additional := b[at] / 32, b[at] % 32;
      if major == 7 then SkipSimple(b, at + 1, additional)
      else
        match ReadLength(b, at + 1, additional)
        case None => None
        case Some(Read(n, body)) =>
          if major <= 1 then Some(body)
          else if major <= 3 then (if body + n <= |b| then Some(body + n) else None)
          else if major == 4 then SkipItems(b, body, n)
          else if major == 5 then SkipItems(b, body, 2 * n)
          else None
  }

  /** Simple values and floats: their contents are not looked at. */
  function SkipSimple(b: seq<byte>, at: nat, additional: nat): (r: Option<nat>)
    requires at <= |b|
    ensures r.Some? ==> at <= r.value <= |b|
  {
    var n := if additional <= 23 then 0 else if additional == 24 then 1 else if additional == 25 then 2 else 4;
    if additional <= 26 && at + n <= |b| then Some(at + n) else None
  }

  function SkipItems(b: seq<byte>, at: nat, count: nat): (r: Option<nat>)
    requires at <= |b|
    ensures r.Some? ==> at + count <= r.value <= |b|
    decreases |b| - at, 1, count
  {
    if count == 0 then Some(at)
    else
      match Skip(b, at)
      case None => None
      case Some(next) => SkipItems(b, next, count - 1)
  }

  // ---- The reader ----

  class CborReader {
    const data: seq<byte>
    var offset: nat

    ghost predicate Valid()
      reads this
    {
      offset <= |data|
    }

    constructor (data: seq<byte>)
      ensures Valid() && this.data == data && offset == 0
    {
      this.data, offset := data, 0;
    }

    /** cbor_reader_take */
    method Take(length: nat) returns (ok: bool, view: seq<byte>)
      requires Valid()
      modifies this
      ensures Valid() && ok == (old(offset) + length <= |data|)
      ensures if ok then offset == old(offset) + length && view == data[old(offset)..offset] else offset == old(offset)
    {
      view := [];
      if offset + length > |data| {
        return false, view;
      }
      view := data[offset..offset + length];
      offset := offset + length;
      ok := true;
    }

    /** cbor_read_length */
    method ReadArgument(additional: nat) returns (ok: bool, value: nat)
      requires Valid()
      modifies this
      ensures Valid()
      ensures ReadLength(data, old(offset), additional) == if ok then Some(Read(value, offset)) else None
      ensures !ok ==> offset == old(offset)
    {
      var view;
      value := 0;
      if additional < 24 {
        return true, additional;
      }
      if additional == 24 {
        ok, view := Take(1);
        if ok { value := view[0]; }
      } else if additional == 25 {
        ok, view := Take(2);
        if ok { value := 256 * (view[0] as nat) + view[1]; }
      } else if additional == 26 {
        ok, view := Take(4);
        if ok {
          value := 0x100_0000 * (view[0] as nat) + 0x1_0000 * (view[1] as nat) + 0x100 * (view[2] as nat) + view[3];
        }
      } else {
        ok := false;
      }
    }

    /** cbor_read_initial */
    method ReadInitial() returns (ok: bool, major: nat, additional: nat)
      requires Valid()
      modifies this
      ensures Valid() && ok == (old(offset) < |data|)
      ensures if ok
        then offset == old(offset) + 1 && major == data[old(offset)] / 32 && additional == data[old(offset)] % 32
        else offset == old(offset)
    {
      var view;
      ok, view := Take(1);
      major, additional := 0, 0;
      if ok { major, additional := view[0] / 32, view[0] % 32; }
    }

    /** meowkey_cbor_skip: whatever the bytes are, it ends, the offset never moves back or past the end, and
        a success has consumed at least one byte. */
    method SkipOne() returns (ok: bool)
      requires Valid()
      modifies this
      ensures Valid() && old(offset) <= offset
      ensures ok ==> old(offset) < offset
      ensures Skip(data, old(offset)) == if ok then Some(offset) else None
      decreases |data| - offset, 0, 0
    {
      hide SkipItems;
      var initial, major, additional := ReadInitial();
      if !initial {
        return false;
      }
      var count, view;
      match major {
        case 0 | 1 => ok, count := ReadArgument(additional);
        case 2 | 3 =>
          ok, count := ReadArgument(additional);
          if ok { ok, view := Take(count); }
        case 4 =>
          ok, count := ReadArgument(additional);
          if ok { ok := SkipMany(count); }
        case 5 =>
          ok, count := ReadArgument(additional);
          if ok { ok := SkipMany(count * 2); }
        case 7 =>
          if additional <= 23 {
            ok := true;
          } else if additional == 24 {
            ok, view := Take(1);
          } else if additional == 25 {
            ok, view := Take(2);
          } else if additional == 26 {
            ok, view := Take(4);
          } else {
            ok := false;
          }
        case _ => ok := false;
      }
    }

    /** cbor_skip_items */
    method SkipMany(count: nat) returns (ok: bool)
      requires Valid()
      modifies this
      ensures Valid() && old(offset) <= offset
      ensures SkipItems(data, old(offset), count) == if ok then Some(offset) else None
      decreases |data| - offset, 1, count
    {
      hide Skip;
      for index := 0 to count
        invariant old(offset) <= offset <= |data|
        invariant SkipItems(data, old(offset), count) == SkipItems(data, offset, count - index)
      {
        ok := SkipOne();
        if !ok {
          return false;
        }
      }
      ok := true;
    }

    /** meowkey_cbor_read_int: on success, what the host decodes there, and the same offset behind it. */
    method ReadInt() returns (ok: bool, value: i64)
      requires Valid()
      modifies this
      ensures Valid() && old(offset) <= offset
      ensures forall utf8 :: ok <==> (var r := Decode(utf8, data, old(offset)); r.Some? && r.value.value.Integer?)
      ensures forall utf8 :: ok ==> Decode(utf8, data, old(offset)) == Some(Decoded(Integer(value), offset))
    {
      hide DecodeItems, DecodeEntries;
      value := 0;
      var initial, major, additional := ReadInitial();
      if !initial || (major != 0 && major != 1) {
        return false, 0;
      }
      var raw;
      ok, raw := ReadArgument(additional);
      if ok {
        value := if major == 0 then raw else -(raw as int) - 1;
      }
    }

    /** meowkey_cbor_read_bytes */
    method ReadBytes() returns (ok: bool, view: seq<byte>)
      requires Valid()
      modifies this
      ensures Valid() && old(offset) <= offset
      ensures forall utf8 :: ok <==> (var r := Decode(utf8, data, old(offset)); r.Some? && r.value.value.Bytes?)
      ensures forall utf8 :: ok ==> Decode(utf8, data, old(offset)) == Some(Decoded(Bytes(view), offset))
    {
      hide DecodeItems, DecodeEntries;
      view := [];
      var initial, major, additional := ReadInitial();
      if !initial || major != 2 {
        return false, [];
      }
      var length;
      ok, length := ReadArgument(additional);
      if ok {
        ok, view := Take(length);
      }
    }
  }

  // ---- Agreement ----

  /** Whatever bytes the host decodes, the device skips, and both stop at the same offset. */
  lemma {:induction false} SkipsWhatDecodes(utf8: seq<byte> -> bool, b: seq<byte>, at: nat)
    requires at <= |b| && Decode(utf8, b, at).Some?
    ensures Skip(b, at) == Some(Decode(utf8, b, at).value.end)
    decreases |b| - at, 0, 0
  {
    hide DecodeItems, DecodeEntries, SkipItems;
    var major := b[at] / 32;
    if major == 4 || major == 5 {
      var Read(n, body) := ReadLength(b, at + 1, b[at] % 32).value;
      if major == 4 {
        SkipsItemsThatDecode(utf8, b, body, n);
      } else {
        SkipsEntriesThatDecode(utf8, b, body, n);
      }
    }
  }

  lemma {:induction false} SkipsItemsThatDecode(utf8: seq<byte> -> bool, b: seq<byte>, at: nat, count: nat)
    requires at <= |b| && DecodeItems(utf8, b, at, count).Some?
    ensures SkipItems(b, at, count) == Some(DecodeItems(utf8, b, at, count).value.end)
    decreases |b| - at, 1, count
  {
    hide Decode, Skip;
    if count > 0 {
      SkipsWhatDecodes(utf8, b, at);
      SkipsItemsThatDecode(utf8, b, Decode(utf8, b, at).value.end, count - 1);
    }
  }

  lemma {:induction false} SkipsEntriesThatDecode(utf8: seq<byte> -> bool, b: seq<byte>, at: nat, count: nat)
    requires at <= |b| && DecodeEntries(utf8, b, at, count).Some?
    ensures SkipItems(b, at, 2 * count) == Some(DecodeEntries(utf8, b, at, count).value.end)
    decreases |b| - at, 1, count
  {
    hide Decode, Skip;
    if count > 0 {
      var middle := Decode(utf8, b, at).value.end;
      SkipsWhatDecodes(utf8, b, at);
      SkipsWhatDecodes(utf8, b, middle);
      SkipsEntriesThatDecode(utf8, b, Decode(utf8, b, middle).value.end, count - 1);
      assert SkipItems(b, at, 2 * count) == SkipItems(b, middle, 2 * count - 1);
    }
  }

  /** What is not the host's: simple values of one byte more, and floats of two and four bytes, are skipped by their
      length; doubles, tags and indefinite lengths are refused. */
  lemma ForeignItems(b: seq<byte>, at: nat)
    requires at < |b|
    ensures var size :=
        if 0xe0 <= b[at] <= 0xf7 then 1 else if b[at] == 0xf8 then 2 else if b[at] == 0xf9 then 3 else 5;
      0xe0 <= b[at] <= 0xfa ==> Skip(b, at) == if at + size <= |b| then Some(at + size) else None
    ensures 0xfb <= b[at] || 0xc0 <= b[at] < 0xe0 ==> Skip(b, at) == None
    ensures b[at] % 32 >= 27 ==> Skip(b, at) == None
  {
    hide SkipItems;
  }

  /** CBOR agreement: whatever the host encodes, followed by any bytes, the host decodes back and the device
      skips, both stopping exactly behind it. */
  lemma Agreement(utf8: seq<byte> -> bool, v: Value, rest: seq<byte>)
    requires WellFormed(utf8, v) && InRange(v)
    ensures var b := Encode(v) + rest;
      && Decode(utf8, b, 0) == Some(Decoded(v, |Encode(v)|))
      && Skip(b, 0) == Some(|Encode(v)|)
  {
    RoundTripIff(utf8, v, rest);
    SkipsWhatDecodes(utf8, Encode(v) + rest, 0);
  }

  /** The bounds check of cbor_reader_take in the 32-bit size_t of the target. */
  predicate Take32(offset: u32, length: u32, total: u32) {
    (offset + length) % 0x1_0000_0000 <= total
  }

  /** The 32-bit check is the mathematical one exactly unless the sum wraps to within the buffer, and then it
      accepts a take that does not fit. */
  lemma TakeIsExactIff(offset: u32, length: u32, total: u32)
    requires offset <= total
    ensures (Take32(offset, length, total) <==> offset + length <= total)
        <==> !(0x1_0000_0000 <= offset + length <= 0x1_0000_0000 + total)
  {
  }

  /** Where skipping ends in 32-bit arithmetic; Wrapped once the offset has wrapped around. */
  datatype Skipped = Refused | At(offset: nat) | Wrapped

  /** meowkey_cbor_skip with the 32-bit size_t of the target: the bounds check of a take, and the doubled count of
      a map, wrap. No object is larger than 2^31 - 1 bytes. */
  function Skip32(b: seq<byte>, at: nat): (r: Skipped)
    requires at <= |b| < 0x8000_0000
    ensures r.At? ==> at < r.offset <= |b|
    decreases |b| - at, 0, 0
  {
    if at == |b| then Refused
    else
      var major, additional := b[at] / 32, b[at] % 32;
      if major == 7 then
        match SkipSimple(b, at + 1, additional)
        case None => Refused
        case Some(end) => At(end)
      else
        match ReadLength(b, at + 1, additional)
        case None => Refused
        case Some(Read(n, body)) =>
          if major <= 1 then At(body)
          else if major <= 3 then
            if !Take32(body, n, |b|) then Refused else if body + n <= |b| then At(body + n) else Wrapped
          else if major == 4 then SkipItems32(b, body, n)
          else if major == 5 then SkipItems32(b, body, 2 * n % 0x1_0000_0000)
          else Refused
  }

  function SkipItems32(b: seq<byte>, at: nat, count: nat): (r: Skipped)
    requires at <= |b| < 0x8000_0000
    ensures r.At? ==> at + count <= r.offset <= |b|
    decreases |b| - at, 1, count
  {
    if count == 0 then At(at)
    else
      match Skip32(b, at)
      case At(next) => SkipItems32(b, next, count - 1)
      case r => r
  }

  /** The reader meets a map that announces 2^31 entries or more. */
  predicate MeetsHugeMap(b: seq<byte>, at: nat)
    requires at <= |b| < 0x8000_0000
    decreases |b| - at, 0, 0
  {
    at < |b| &&
    match ReadLength(b, at + 1, b[at] % 32)
    case None => false
    case Some(Read(n, body)) =>
      if b[at] / 32 == 4 then HugeMapAmong(b, body, n)
      else b[at] / 32 == 5 && (n >= 0x8000_0000 || HugeMapAmong(b, body, 2 * n))
  }

  predicate HugeMapAmong(b: seq<byte>, at: nat, count: nat)
    requires at <= |b| < 0x8000_0000
    decreases |b| - at, 1, count
  {
    count > 0 && (MeetsHugeMap(b, at) || (Skip32(b, at).At? && HugeMapAmong(b, Skip32(b, at).offset, count - 1)))
  }

  function AsSkipped(r: Option<nat>): Skipped {
    if r.Some? then At(r.value) else Refused
  }

  /** Skipping in 32 bits is skipping, exactly unless a take wraps, or an input with a map of 2^31 entries or more is
      accepted: such a map never fits, but twice its count wraps to a small one. */
  lemma {:induction false} SkipIsExactIff(b: seq<byte>, at: nat)
    requires at <= |b| < 0x8000_0000
    ensures Skip32(b, at) == AsSkipped(Skip(b, at))
       <==> Skip32(b, at).Refused? || (Skip32(b, at).At? && !MeetsHugeMap(b, at))
    ensures Skip32(b, at).Refused? || Skip(b, at).Some? ==> Skip32(b, at) == AsSkipped(Skip(b, at))
    decreases |b| - at, 0, 0
  {
    hide SkipItems, SkipItems32, HugeMapAmong, SkipSimple;
    if at < |b| {
      var major, argument := b[at] / 32, ReadLength(b, at + 1, b[at] % 32);
      if major != 7 && argument.Some? {
        var Read(n, body) := argument.value;
        if major == 4 {
          SkipItemsExactIff(b, body, n);
        } else if major == 5 && n < 0x8000_0000 {
          SkipItemsExactIff(b, body, 2 * n);
        }
      }
    }
  }

  lemma {:induction false} SkipItemsExactIff(b: seq<byte>, at: nat, count: nat)
    requires at <= |b| < 0x8000_0000
    ensures SkipItems32(b, at, count) == AsSkipped(SkipItems(b, at, count))
       <==> SkipItems32(b, at, count).Refused? || (SkipItems32(b, at, count).At? && !HugeMapAmong(b, at, count))
    ensures SkipItems32(b, at, count).Refused? || SkipItems(b, at, count).Some? ==>
      SkipItems32(b, at, count) == AsSkipped(SkipItems(b, at, count))
    decreases |b| - at, 1, count
  {
    hide Skip, Skip32, MeetsHugeMap;
    if count > 0 {
      SkipIsExactIff(b, at);
      if Skip32(b, at).At? {
        SkipItemsExactIff(b, Skip32(b, at).offset, count - 1);
      }
    }
  }

  /** The shortest such input: a map of 2^31 entries, and nothing else, is skipped as complete. */
  lemma HugeMapIsSkipped()
    ensures var b := [0xba, 0x80, 0, 0, 0]; Skip32(b, 0) == At(5) && Skip(b, 0) == None
  {
    var b := [0xba, 0x80, 0, 0, 0];
    SkipIsExactIff(b, 0);
  }

  // ---- The writer ----

  class CborWriter {
    const data: array<byte>
    var length: nat
    var failed: bool

    ghost predicate Valid()
      reads this
    {
      length <= data.Length
    }

    ghost function Contents(): seq<byte>
      requires Valid()
      reads this, data
    {
      data[..length]
    }

    ghost function State(): Output
      requires Valid()
      reads this, data
    {
      Output(Contents(), failed)
    }

    constructor (data: array<byte>)
      ensures Valid() && this.data == data && State() == Output([], false)
    {
      this.data, length, failed := data, 0, false;
    }

    /** cbor_writer_put */
    method Put(bytes: seq<byte>) returns (ok: bool)
      requires Valid()
      modifies this, data
      ensures Valid() && State() == PutAll(data.Length, old(State()), [bytes]) && ok == !failed
    {
      if failed || length + |bytes| > data.Length {
        failed := true;
        return false;
      }
      ghost var before := data[..length];
      for i := 0 to |bytes|
        invariant !failed && length == old(length) && length + |bytes| <= data.Length
        invariant data[..length] == before
        invariant data[length..length + i] == bytes[..i]
      {
        data[length + i] := bytes[i];
        assert data[length..length + i + 1] == data[length..length + i] + [bytes[i]];
      }
      assert data[..length + |bytes|] == before + bytes;
      length := length + |bytes|;
      assert [bytes][1..] == [];
      ok := true;
    }

    /** cbor_write_type_and_value */
    method WriteTypeAndValue(major: nat, value: nat) returns (ok: bool)
      requires Valid() && major < 8
      modifies this, data
      ensures Valid() && State() == PutAll(data.Length, old(State()), [Head(major, value)]) && ok == !failed
    {
      hide PutAll;
      var header := [32 * major + if value < 24 then value else 0];
      if value >= 0x1_0000 {
        header := [32 * major + 26] + Be32(value % 0x1_0000_0000);
      } else if value >= 0x100 {
        header := [32 * major + 25] + Be16(value);
      } else if value >= 24 {
        header := [32 * major + 24, value];
      }
      ok := Put(header);
    }

    /** meowkey_cbor_write_bytes and meowkey_cbor_write_text: the body is not attempted when the head fails. */
    method WriteString(major: nat, body: seq<byte>) returns (ok: bool)
      requires Valid() && (major == 2 || major == 3)
      modifies this, data
      ensures Valid() && State() == PutAll(data.Length, old(State()), [Head(major, |body|), body]) && ok == !failed
    {
      hide Head;
      PutInTwo(data.Length, State(), Head(major, |body|), body);
      ok := WriteTypeAndValue(major, |body|);
      if ok {
        ok := Put(body);
      }
    }
  }

  datatype Output = Output(bytes: seq<byte>, failed: bool)

  /** A sequence of puts with sticky failure. */
  function PutAll(capacity: nat, w: Output, puts: seq<seq<byte>>): Output
    decreases |puts|
  {
    if puts == [] then w
    else
      var next :=
        if w.failed || |w.bytes| + |puts[0]| > capacity then Output(w.bytes, true)
        else Output(w.bytes + puts[0], false);
      PutAll(capacity, next, puts[1..])
  }

  lemma PutInTwo(capacity: nat, w: Output, first: seq<byte>, second: seq<byte>)
    ensures PutAll(capacity, w, [first, second]) == PutAll(capacity, PutAll(capacity, w, [first]), [second])
    ensures PutAll(capacity, w, [first]).failed ==>
      PutAll(capacity, w, [first, second]) == PutAll(capacity, w, [first])
  {
    assert [first, second][1..] == [second] && [first][1..] == [] && [second][1..] == [];
  }

  function Flat(puts: seq<seq<byte>>): seq<byte>
    decreases |puts|
  {
    if puts == [] then [] else puts[0] + Flat(puts[1..])
  }

  /** A writer has not failed exactly if everything put into it fits, and then it holds all of it in order. */
  lemma {:induction false} WriterHoldsAllIff(capacity: nat, w: Output, puts: seq<seq<byte>>)
    requires !w.failed && |w.bytes| <= capacity
    ensures !PutAll(capacity, w, puts).failed <==> |w.bytes| + |Flat(puts)| <= capacity
    ensures !PutAll(capacity, w, puts).failed ==> PutAll(capacity, w, puts).bytes == w.bytes + Flat(puts)
    ensures w.bytes <= PutAll(capacity, w, puts).bytes && |PutAll(capacity, w, puts).bytes| <= capacity
    decreases |puts|
  {
    if puts == [] {
    } else if |w.bytes| + |puts[0]| > capacity {
      FailureSticks(capacity, Output(w.bytes, true), puts[1..]);
    } else {
      WriterHoldsAllIff(capacity, Output(w.bytes + puts[0], false), puts[1..]);
      assert w.bytes + (puts[0] + Flat(puts[1..])) == (w.bytes + puts[0]) + Flat(puts[1..]);
    }
  }

  lemma {:induction false} FailureSticks(capacity: nat, w: Output, puts: seq<seq<byte>>)
    requires w.failed
    ensures PutAll(capacity, w, puts) == w
    decreases |puts|
  {
    if puts != [] {
      FailureSticks(capacity, w, puts[1..]);
    }
  }

  /** The puts a command handler makes to write a value: a head before each string, array and map. */
  function Script(v: Value): seq<seq<byte>>
    decreases v
  {
    match v
    case Integer(n) => [if n >= 0 then Head(0, n) else Head(1, -(n as int) - 1)]
    case Bytes(b) => [Head(2, |b|), b]
    case Text(t) => [Head(3, |t|), t]
    case Array(items) => [Head(4, |items|)] + ScriptItems(items)
    case Map(entries) => [Head(5, |entries|)] + ScriptEntries(entries)
    case Bool(b) => [[if b then 0xf5 else 0xf4]]
    case Null => [[0xf6]]
  }

  function ScriptItems(items: seq<Value>): seq<seq<byte>>
    decreases items
  {
    if items == [] then [] else Script(items[0]) + ScriptItems(items[1..])
  }

  function ScriptEntry(e: Entry): seq<seq<byte>>
    decreases e
  {
    Script(e.key) + Script(e.value)
  }

  function ScriptEntries(entries: seq<Entry>): seq<seq<byte>>
    decreases entries
  {
    if entries == [] then [] else ScriptEntry(entries[0]) + ScriptEntries(entries[1..])
  }

  lemma {:induction false} FlatConcat(a: seq<seq<byte>>, b: seq<seq<byte>>)
    ensures Flat(a + b) == Flat(a) + Flat(b)
    decreases |a|
  {
    if a == [] {
      assert a + b == b;
    } else {
      FlatConcat(a[1..], b);
      assert (a + b)[0] == a[0] && (a + b)[1..] == a[1..] + b;
      assert a[0] + (Flat(a[1..]) + Flat(b)) == (a[0] + Flat(a[1..])) + Flat(b);
    }
  }

  lemma {:induction false} ScriptWrites(v: Value)
    ensures Flat(Script(v)) == Encode(v)
    decreases v, 0
  {
    hide Head;
    match v {
      case Array(items) =>
        FlatConcat([Head(4, |items|)], ScriptItems(items));
        FlatOne(Head(4, |items|));
        ScriptItemsWrite(items);
      case Map(entries) =>
        FlatConcat([Head(5, |entries|)], ScriptEntries(entries));
        FlatOne(Head(5, |entries|));
        ScriptEntriesWrite(entries);
      case Bytes(s) => FlatTwo(Head(2, |s|), s);
      case Text(s) => FlatTwo(Head(3, |s|), s);
      case _ => FlatOne(Encode(v));
    }
  }

  lemma FlatOne(a: seq<byte>)
    ensures Flat([a]) == a
  {
    assert [a][1..] == [];
  }

  lemma FlatTwo(a: seq<byte>, b: seq<byte>)
    ensures Flat([a, b]) == a + b
  {
    assert [a, b][1..] == [b];
    FlatOne(b);
  }

  lemma {:induction false} ScriptItemsWrite(items: seq<Value>)
    ensures Flat(ScriptItems(items)) == EncodeItems(items)
    decreases items, 0
  {
    if items != [] {
      FlatConcat(Script(items[0]), ScriptItems(items[1..]));
      ScriptWrites(items[0]);
      ScriptItemsWrite(items[1..]);
    }
  }

  lemma {:induction false} ScriptEntriesWrite(entries: seq<Entry>)
    ensures Flat(ScriptEntries(entries)) == EncodeEntries(entries)
    decreases entries, 0
  {
    if entries != [] {
      FlatConcat(ScriptEntry(entries[0]), ScriptEntries(entries[1..]));
      ScriptEntryWrites(entries[0]);
      ScriptEntriesWrite(entries[1..]);
    }
  }

  lemma {:induction false} ScriptEntryWrites(e: Entry)
    ensures Flat(ScriptEntry(e)) == EncodeEntry(e)
    decreases e, 0
  {
    FlatConcat(Script(e.key), Script(e.value));
    ScriptWrites(e.key);
    ScriptWrites(e.value);
  }

  /** The other direction: a response written by the device without failing is what the host decodes. */
  lemma DeviceToHost(utf8: seq<byte> -> bool, v: Value, capacity: nat)
    requires WellFormed(utf8, v) && InRange(v)
    ensures var w := PutAll(capacity, Output([], false), Script(v));
      && (w.failed <==> |Encode(v)| > capacity)
      && (!w.failed ==> Decode(utf8, w.bytes, 0) == Some(Decoded(v, |w.bytes|)))
  {
    WriterHoldsAllIff(capacity, Output([], false), Script(v));
    ScriptWrites(v);
    RoundTripIff(utf8, v, []);
    assert Encode(v) + [] == Encode(v) == [] + Encode(v);
  }
}
