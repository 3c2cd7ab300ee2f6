/**
 * The CBOR encoder of extension/webauthn.js, with a decoder after section 3 of RFC 8949.
 */
module Cbor {
  import opened Bits
  import opened Bytes
  import opened Wrappers
  import Utf8

  datatype Value =
    | Number(n: int)
    | Bytes(bytes: seq<byte>)
    | Text(text: string)
    | Array(items: seq<Value>)
    | Map(entries: seq<Entry>)
    | Unsupported

  datatype Entry = Entry(key: Value, value: Value)

  const MAX: nat := 0xFFFF_FFFF

  // ---- The encoder ----

  function Head(major: nat, value: nat): (r: Option<seq<byte>>)
    requires major < 8
    ensures r.Some? <==> value <= MAX
    ensures r.Some? ==> |r.value| > 0
  {
    Info(major, 31);
    if value < 24 then Info(major, value); Some([Or(major * 32, value)])
    else if value <= 0xFF then Info(major, 24); Some([Or(major * 32, 24), value])
    else if value <= 0xFFFF then Info(major, 25); Some([Or(major * 32, 25), value / 0x100, value % 0x100])
    else if value <= MAX then
      Info(major, 26);
      Some([Or(major * 32, 26), value / 0x100_0000 % 0x100, value / 0x1_0000 % 0x100, value / 0x100 % 0x100, value % 0x100])
    else None
  }

  /** (major << 5) | info is one byte that holds both. */
  lemma {:induction false} Info(major: nat, info: nat)
    requires major < 8 && info < 32
    ensures Or(major * 32, info) == major * 32 + info < 256
    ensures Or(major * 32, info) / 32 == major && Or(major * 32, info) % 32 == info
  {
    assert Pow2(5) == 32;
    OrDisjoint(info, major, 5);
  }

  function Concat(a: Option<seq<byte>>, b: Option<seq<byte>>): Option<seq<byte>> {
    if a.Some? && b.Some? then Some(a.value + b.value) else None
  }

  /** cborEncode; none where the source throws. */
  function Encode(v: Value): (r: Option<seq<byte>>)
    ensures r.Some? ==> |r.value| > 0
    decreases v
  {
    match v
    case Number(n) => if n >= 0 then Head(0, n) else Head(1, -n - 1)
    case Bytes(b) => Concat(Head(2, |b|), Some(b))
    case Text(t) => Concat(Head(3, |Utf8.Encode(t)|), Some(Utf8.Encode(t)))
    case Array(items) => Concat(Head(4, |items|), EncodeItems(items))
    case Map(entries) => Concat(Head(5, |entries|), EncodeEntries(entries))
    case Unsupported => None
  }

  function EncodeItems(items: seq<Value>): Option<seq<byte>>
    decreases items
  {
    if items == [] then Some([]) else Concat(Encode(items[0]), EncodeItems(items[1..]))
  }

  function EncodeEntries(entries: seq<Entry>): Option<seq<byte>>
    decreases entries
  {
    if entries == [] then Some([])
    else Concat(EncodeEntry(entries[0]), EncodeEntries(entries[1..]))
  }

  function EncodeEntry(e: Entry): Option<seq<byte>>
    decreases e
  {
    Concat(Encode(e.key), Encode(e.value))
  }

  // ---- The decoder ----

  datatype Read<T> = Read(value: T, rest: seq<byte>) | Malformed

  /** Major type and argument of the head (section 3): an indefinite or reserved length is malformed here. */
  function ReadHead(s: seq<byte>): (r: Read<(nat, nat)>)
    ensures r.Read? ==> |r.rest| < |s| && r.value.0 < 8
  {
    if s == [] then Malformed
    else
      var major, info := s[0] / 32, s[0] % 32;
      var extra := if info < 24 then 0 else if info == 24 then 1 else if info == 25 then 2 else if info == 26 then 4 else 8;
      if info > 27 || |s| < 1 + extra then Malformed
      else Read((major, if info < 24 then info else BeNat(s[1..1 + extra])), s[1 + extra..])
  }

  function Decode(s: seq<byte>): (r: Read<Value>)
    ensures r.Read? ==> |r.rest| < |s|
    decreases |s|, 0
  {
    match ReadHead(s)
    case Malformed => Malformed
    case Read(head, rest) =>
      var n := head.1;
      match head.0
      case 0 => Read(Number(n), rest)
      case 1 => Read(Number(-1 - n), rest)
      case 2 => if n > |rest| then Malformed else Read(Bytes(rest[..n]), rest[n..])
      case 3 =>
        if n > |rest| then Malformed
        else
          var t := Utf8.Decode(rest[..n]);
          if t.None? then Malformed else Read(Text(t.value), rest[n..])
      case 4 =>
        var items := DecodeItems(n, rest);
        if items.Malformed? then Malformed else Read(Array(items.value), items.rest)
      case 5 =>
        var entries := DecodeEntries(n, rest);
        if entries.Malformed? then Malformed else Read(Map(entries.value), entries.rest)
      case _ => Malformed
  }

  function DecodeItems(n: nat, s: seq<byte>): (r: Read<seq<Value>>)
    ensures r.Read? ==> |r.rest| <= |s|
    decreases |s|, 1
  {
    if n == 0 then Read([], s)
    else
      var first := Decode(s);
      if first.Malformed? then Malformed
      else
        var more := DecodeItems(n - 1, first.rest);
        if more.Malformed? then Malformed else Read([first.value] + more.value, more.rest)
  }

  function DecodeEntries(n: nat, s: seq<byte>): (r: Read<seq<Entry>>)
    ensures r.Read? ==> |r.rest| <= |s|
    decreases |s|, 1
  {
    if n == 0 then Read([], s)
    else
      var key := Decode(s);
      if key.Malformed? then Malformed
      else
        var value := Decode(key.rest);
        if value.Malformed? then Malformed
        else
          var more := DecodeEntries(n - 1, value.rest);
          if more.Malformed? then Malformed else Read([Entry(key.value, value.value)] + more.value, more.rest)
  }

  // ---- Round trip ----

  lemma HeadBack(major: nat, value: nat, rest: seq<byte>)
    requires major < 8 && value <= MAX
    ensures ReadHead(Head(major, value).value + rest) == Read((major, value), rest)
  {
    var h := Head(major, value).value;
    var s := h + rest;
    Info(major, if value < 24 then value else if value <= 0xFF then 24 else if value <= 0xFFFF then 25 else 26);
    assert s[|h|..] == rest && s[1..|h|] == h[1..];
    if value >= 24 {
      ArgumentBack(major, value);
    }
  }

  lemma ArgumentBack(major: nat, value: nat)
    requires major < 8 && 24 <= value <= MAX
    ensures BeNat(Head(major, value).value[1..]) == value
  {
    var h := Head(major, value).value[1..];
    if value <= 0xFF {
      One(value);
    } else if value <= 0xFFFF {
      Two(value);
    } else {
      Four(value);
    }
  }

  lemma One(v: nat)
    requires v < 256
    ensures BeNat([v]) == v
  {
    assert [v][..0] == [];
  }

  lemma Two(v: nat)
    requires v < 0x1_0000
    ensures BeNat([v / 0x100, v % 0x100]) == v
  {
    One(v / 0x100);
    assert [v / 0x100, v % 0x100][..1] == [v / 0x100];
  }

  lemma Four(v: nat)
    requires v < 0x1_0000_0000
    ensures BeNat([v / 0x100_0000 % 0x100, v / 0x1_0000 % 0x100, v / 0x100 % 0x100, v % 0x100]) == v
  {
    var s := [v / 0x100_0000 % 0x100, v / 0x1_0000 % 0x100, v / 0x100 % 0x100, v % 0x100];
    Two(v / 0x1_0000);
    assert s[..3][..2] == [v / 0x1_0000 / 0x100, v / 0x1_0000 % 0x100];
    assert BeNat(s[..3]) == v / 0x1_0000 * 256 + v / 0x100 % 0x100;
  }

  /** CBOR is self-delimiting: an encoded value, whatever follows it, reads as the value and what follows. */
  lemma {:induction false} DecodeEncode(v: Value, rest: seq<byte>)
    requires Encode(v).Some?
    ensures Decode(Encode(v).value + rest) == Read(v, rest)
    decreases v
  {
    hide Head, ReadHead, EncodeItems, DecodeItems, EncodeEntries, DecodeEntries, Utf8.Encode, Utf8.Decode;
    match v {
      case Number(n) =>
        HeadBack(if n >= 0 then 0 else 1, if n >= 0 then n else -n - 1, rest);
      case Bytes(b) =>
        HeadBack(2, |b|, b + rest);
        assert Encode(v).value + rest == Head(2, |b|).value + (b + rest);
      case Text(t) =>
        var b := Utf8.Encode(t);
        HeadBack(3, |b|, b + rest);
        Utf8.DecodeEncode(t);
        assert Encode(v).value + rest == Head(3, |b|).value + (b + rest);
        assert (b + rest)[..|b|] == b;
      case Array(items) =>
        var b := EncodeItems(items).value;
        HeadBack(4, |items|, b + rest);
        ItemsBack(items, rest);
        assert Encode(v).value + rest == Head(4, |items|).value + (b + rest);
      case Map(entries) =>
        var b := EncodeEntries(entries).value;
        HeadBack(5, |entries|, b + rest);
        EntriesBack(entries, rest);
        assert Encode(v).value + rest == Head(5, |entries|).value + (b + rest);
    }
  }

  lemma {:induction false} ItemsBack(items: seq<Value>, rest: seq<byte>)
    requires EncodeItems(items).Some?
    ensures DecodeItems(|items|, EncodeItems(items).value + rest) == Read(items, rest)
    decreases items
  {
    hide Decode, Encode;
    if items == [] {
      assert EncodeItems(items).value + rest == rest;
    } else {
      var first, more := Encode(items[0]).value, EncodeItems(items[1..]).value;
      DecodeEncode(items[0], more + rest);
      ItemsBack(items[1..], rest);
      assert EncodeItems(items).value + rest == first + (more + rest);
      assert items == [items[0]] + items[1..];
    }
  }

  lemma {:induction false} EntriesBack(entries: seq<Entry>, rest: seq<byte>)
    requires EncodeEntries(entries).Some?
    ensures DecodeEntries(|entries|, EncodeEntries(entries).value + rest) == Read(entries, rest)
    decreases entries
  {
    hide Decode, Encode, EncodeEntry;
    if entries == [] {
      assert EncodeEntries(entries).value + rest == rest;
    } else {
      var first, more := EncodeEntry(entries[0]).value, EncodeEntries(entries[1..]).value;
      EntryBack(entries[0], more + rest);
      EntriesBack(entries[1..], rest);
      assert EncodeEntries(entries).value + rest == first + (more + rest);
      assert entries == [entries[0]] + entries[1..];
    }
  }

  lemma {:induction false} EntryBack(e: Entry, rest: seq<byte>)
    requires EncodeEntry(e).Some?
    ensures var key := Decode(EncodeEntry(e).value + rest);
            key.Read? && key.value == e.key && Decode(key.rest) == Read(e.value, rest)
    decreases e
  {
    hide Decode, Encode;
    var key, value := Encode(e.key).value, Encode(e.value).value;
    DecodeEncode(e.key, value + rest);
    DecodeEncode(e.value, rest);
    assert EncodeEntry(e).value + rest == key + (value + rest);
  }

  /** Different values have different encodings. */
  lemma {:induction false} EncodeInjective(v: Value, w: Value)
    requires Encode(v).Some? && Encode(v) == Encode(w)
    ensures v == w
  {
    hide Encode, Decode;
    DecodeEncode(v, []);
    DecodeEncode(w, []);
  }

  /** The values the encoder takes: whole numbers and lengths of at most 32 bits, at every depth. */
  ghost predicate Encodable(v: Value)
    decreases v
  {
    match v
    case Number(n) => -1 - n <= MAX && n <= MAX
    case Bytes(b) => |b| <= MAX
    case Text(t) => |Utf8.Encode(t)| <= MAX
    case Array(items) => |items| <= MAX && forall k :: 0 <= k < |items| ==> Encodable(items[k])
    case Map(entries) => |entries| <= MAX && forall k :: 0 <= k < |entries| ==> Encodable(entries[k].key) && Encodable(entries[k].value)
    case Unsupported => false
  }

  /** The encoder throws exactly for the others. */
  lemma {:induction false} EncodesExactly(v: Value)
    ensures Encode(v).Some? <==> Encodable(v)
    decreases v
  {
    hide Head;
    match v {
      case Array(items) => ItemsExactly(items);
      case Map(entries) => EntriesExactly(entries);
      case _ =>
    }
  }

  lemma {:induction false} ItemsExactly(items: seq<Value>)
    ensures EncodeItems(items).Some? <==> forall k :: 0 <= k < |items| ==> Encodable(items[k])
    decreases items
  {
    hide Encode, Encodable;
    if items != [] {
      EncodesExactly(items[0]);
      ItemsExactly(items[1..]);
      assert items == [items[0]] + items[1..];
    }
  }

  lemma {:induction false} EntriesExactly(entries: seq<Entry>)
    ensures EncodeEntries(entries).Some? <==>
      forall k :: 0 <= k < |entries| ==> Encodable(entries[k].key) && Encodable(entries[k].value)
    decreases entries
  {
    hide Encode, Encodable;
    if entries != [] {
      EntryExactly(entries[0]);
      EntriesExactly(entries[1..]);
      assert entries == [entries[0]] + entries[1..];
    }
  }

  lemma {:induction false} EntryExactly(e: Entry)
    ensures EncodeEntry(e).Some? <==> Encodable(e.key) && Encodable(e.value)
    decreases e
  {
    hide Encode, Encodable;
    EncodesExactly(e.key);
    EncodesExactly(e.value);
  }

  // ---- concatBytes ----

  method ConcatBytes(parts: seq<seq<byte>>) returns (out: array<byte>)
    ensures fresh(out) && out[..] == Flatten(parts)
  {
    var total := 0;
    for k := 0 to |parts|
      invariant total == |Flatten(parts[..k])|
    {
      assert parts[..k + 1][..k] == parts[..k];
      total := total + |parts[k]|;
    }
    assert parts[..|parts|] == parts;
    out := new byte[total];
    var off := 0;
    for k := 0 to |parts|
      invariant off == |Flatten(parts[..k])| <= total && out[..off] == Flatten(parts[..k])
    {
      assert parts[..k + 1][..k] == parts[..k];
      FlattenPrefix(parts, k + 1);
      forall j | 0 <= j < |parts[k]| {
        out[off + j] := parts[k][j];
      }
      off := off + |parts[k]|;
    }
  }

  lemma {:induction false} FlattenPrefix(parts: seq<seq<byte>>, k: nat)
    requires k <= |parts|
    ensures |Flatten(parts[..k])| <= |Flatten(parts)|
    decreases |parts| - k
  {
    if k < |parts| {
      FlattenPrefix(parts, k + 1);
      assert parts[..k + 1][..k] == parts[..k];
    } else {
      assert parts[..k] == parts;
    }
  }
}
