/**
 * The KDBX 4 container: buildKdbx of web/export.js and readKdbx4 of web/kdbx-read.js, written apart from each
 * other and proved to undo each other.
 */
module KdbxContainer {
  import opened Bits
  import opened Bytes
  import opened JsInt
  import opened Sequences
  import opened Wrappers
  import Cbc
  import Utf8

  // ---- What the platform provides ----

  /**
   * Hashes, HMAC and the block functions of AES and ChaCha20, base64, the text of bytes that are not UTF-8, and
   * the number nearest to a 64-bit integer.
   */
  datatype Platform = Platform(
    sha256: seq<byte> -> seq<byte>,
    sha512: seq<byte> -> seq<byte>,
    hmac: (seq<byte>, seq<byte>) -> seq<byte>,
    aes: Cbc.BlockCipher,
    chacha: (seq<byte>, nat, seq<byte>) -> seq<byte>,
    btoa: seq<byte> -> string,
    atob: string -> Option<seq<byte>>,
    lossy: seq<byte> -> string,
    toNumber: nat -> nat)

  const SAFE: nat := 0x20_0000_0000_0000

  predicate Base64Char(c: char) {
    'A' <= c <= 'Z' || 'a' <= c <= 'z' || '0' <= c <= '9' || c == '+' || c == '/' || c == '='
  }

  ghost predicate Lawful(p: Platform) {
    && Cbc.Lawful(p.aes)
    && (forall b :: |p.sha256(b)| == 32)
    && (forall b :: |p.sha512(b)| == 64)
    && (forall k, b :: |p.hmac(k, b)| == 32)
    && (forall k, n, c :: |p.chacha(k, n, c)| == 64)
    && (forall b :: p.atob(p.btoa(b)) == Some(b))
    && (forall b, i :: 0 <= i < |p.btoa(b)| ==> Base64Char(p.btoa(b)[i]))
    && (forall b :: b != [] ==> p.btoa(b) != "")
    && (forall n: nat :: n < SAFE ==> p.toNumber(n) == n)
  }

  /** TextDecoder: a byte order mark in front is dropped. */
  function TextDecode(p: Platform, b: seq<byte>): string {
    var t := if |b| >= 3 && b[..3] == [0xEF, 0xBB, 0xBF] then b[3..] else b;
    match Utf8.Decode(t)
    case Some(s) => s
    case None => p.lossy(t)
  }

  lemma {:induction false} EncodedMark(s: string)
    ensures (|Utf8.Encode(s)| >= 3 && Utf8.Encode(s)[..3] == [0xEF, 0xBB, 0xBF]) <==> (s != "" && s[0] == '\U{FEFF}')
    ensures s != "" && s[0] == '\U{FEFF}' ==> Utf8.Encode(s)[3..] == Utf8.Encode(s[1..])
  {
    if s != "" {
      var first, more := Utf8.EncodeChar(s[0]), Utf8.Encode(s[1..]);
      assert Utf8.Encode(s) == first + more;
      var n := s[0] as int;
      if n == 0xFEFF {
        assert first == [0xEF, 0xBB, 0xBF];
      } else if 0x800 <= n < 0x1_0000 {
        assert first == [0xE0 + n / 0x1000, 0x80 + n / 0x40 % 0x40, 0x80 + n % 0x40];
        assert n == n / 0x1000 * 0x1000 + n / 0x40 % 0x40 * 0x40 + n % 0x40;
        assert Utf8.Encode(s)[..3] == first;
      } else {
        assert Utf8.Encode(s)[0] == first[0];
      }
    }
  }

  /** A string comes back from its bytes if and only if it does not start with U+FEFF. */
  lemma {:induction false} TextDecodeBack(p: Platform, s: string)
    ensures TextDecode(p, Utf8.Encode(s)) == s <==> !(s != "" && s[0] == '\U{FEFF}')
    ensures s != "" && s[0] == '\U{FEFF}' ==> TextDecode(p, Utf8.Encode(s)) == s[1..]
  {
    hide Utf8.Encode, Utf8.Decode;
    EncodedMark(s);
    Utf8.DecodeEncode(s);
    if s != "" && s[0] == '\U{FEFF}' {
      Utf8.DecodeEncode(s[1..]);
    }
  }

  // ---- Numbers in bytes ----

  /** Seconds from the year 1, where KeePass counts from, to 1970. */
  const DOTNET_EPOCH_OFFSET := 62135596800

  /** Days in the years 1 to n of the Gregorian calendar. */
  function DaysUntil(n: nat): nat {
    if n == 0 then 0
    else DaysUntil(n - 1) + if n % 4 == 0 && (n % 100 != 0 || n % 400 == 0) then 366 else 365
  }

  lemma {:induction false} DaysCounted(n: nat)
    ensures DaysUntil(n) == 365 * n + n / 4 - n / 100 + n / 400
  {
    if n > 0 {
      DaysCounted(n - 1);
      MultiplesCounted(n, 4);
      MultiplesCounted(n, 100);
      MultiplesCounted(n, 400);
      Divides(n);
    }
  }

  lemma Divides(n: nat)
    ensures n % 400 == 0 ==> n % 100 == 0
    ensures n % 100 == 0 ==> n % 4 == 0
  {
    if n % 400 == 0 {
      DivModUnique(n, 100, 4 * (n / 400), 0);
    }
    if n % 100 == 0 {
      DivModUnique(n, 4, 25 * (n / 100), 0);
    }
  }

  lemma MultiplesCounted(n: nat, k: nat)
    requires n > 0 && k > 0
    ensures n / k == (n - 1) / k + if n % k == 0 then 1 else 0
  {
    var q, r := (n - 1) / k, (n - 1) % k;
    assert n == k * q + (r + 1);
    if r + 1 < k {
      DivModUnique(n, k, q, r + 1);
    } else {
      assert n == k * (q + 1);
      DivModUnique(n, k, q + 1, 0);
    }
  }

  /** The offset is the seconds of the years before 1970. */
  lemma EpochOffset()
    ensures DOTNET_EPOCH_OFFSET == 24 * 60 * 60 * DaysUntil(1969)
  {
    DaysCounted(1969);
  }

  function Le64Bytes(n: nat): (r: seq<byte>)
    ensures |r| == 8
  {
    Le32(n) + Le32(n / W32)
  }

  lemma Le32Back(n: nat)
    ensures LeNat(Le32(n)) == n % W32
  {
    var a, b, c, d := n % 256, n / 256 % 256, n / 0x1_0000 % 256, n / 0x100_0000 % 256;
    assert Le32(n) == [a, b, c, d];
    LeNatOfFour(a, b, c, d);
    FourDigits(n);
  }

  lemma FourDigits(n: nat)
    ensures n % W32 == n % 256 + 256 * (n / 256 % 256 + 256 * (n / 0x1_0000 % 256 + 256 * (n / 0x100_0000 % 256)))
  {
    NextDigit(n, 1, n);
    NextDigit(n, 0x100, n / 256);
    NextDigit(n, 0x1_0000, n / 0x1_0000);
    NextDigit(n, 0x100_0000, n / 0x100_0000);
    SumOfDigits(n, n / 256, n / 0x1_0000, n / 0x100_0000, n / W32, n % 256, n / 256 % 256, n / 0x1_0000 % 256, n / 0x100_0000 % 256);
  }

  lemma NextDigit(n: nat, p: nat, high: nat)
    requires p > 0 && high == n / p
    ensures high == 256 * (n / (256 * p)) + high % 256
  {
    assert n == p * high + n % p;
    DigitAbove(n, p, high / 256, high % 256, n % p);
  }

  lemma DigitAbove(n: nat, p: nat, q: nat, r: nat, low: nat)
    requires n == p * (256 * q + r) + low && low < p && r < 256
    ensures n / (256 * p) == q
  {
    ProductMonotone(p, r, 255);
    PlaceOfDigit(p, q, r);
    DivModUnique(n, 256 * p, q, p * r + low);
  }

  lemma PlaceOfDigit(p: nat, q: nat, r: nat)
    ensures p * (256 * q + r) == (256 * p) * q + p * r && p * 255 + p == 256 * p
  {
  }

  lemma SumOfDigits(n: nat, n1: nat, n2: nat, n3: nat, n4: nat, d0: byte, d1: byte, d2: byte, d3: byte)
    requires n == 256 * n1 + d0 && n1 == 256 * n2 + d1 && n2 == 256 * n3 + d2 && n3 == 256 * n4 + d3
    ensures n % W32 == d0 + 256 * (d1 + 256 * (d2 + 256 * d3))
  {
    DivModUnique(n, W32, n4, d0 + 256 * (d1 + 256 * (d2 + 256 * d3)));
  }

  lemma LeNatOfFour(a: byte, b: byte, c: byte, d: byte)
    ensures LeNat([a, b, c, d]) == a as int + 256 * (b as int + 256 * (c as int + 256 * d as int))
  {
    assert [a, b, c, d][1..] == [b, c, d] && [b, c, d][1..] == [c, d] && [c, d][1..] == [d] && [d][1..] == [];
    assert LeNat([d]) == d;
    assert LeNat([c, d]) == c as int + 256 * d as int;
  }

  lemma Le64Back(n: nat)
    requires n < W64
    ensures LeNat(Le64Bytes(n)) == n
  {
    hide Le32;
    Le32Back(n);
    Le32Back(n / W32);
    LeNatConcat(Le32(n), Le32(n / W32));
    LeNatBound([]);
  }

  // ---- Outcomes ----

  /**
   * The codes of the reader's errors; Crash is an exception that carries none, Elsewhere a branch (other ciphers,
   * key derivations and versions, compression) that is not part of this model.
   */
  datatype Error = NotKdbx | Corrupt | BadPassword | Unsupported | Crash | Elsewhere

  datatype Result<+T> = Ok(value: T) | Err(error: Error) {
    predicate IsFailure() {
      Err?
    }

    function PropagateFailure<U>(): Result<U>
      requires Err?
    {
      Err(error)
    }

    function Extract(): T
      requires Ok?
    {
      value
    }
  }

  /** Nothing, or an error. */
  function Need(condition: bool, error: Error): Result<()> {
    if condition then Ok(()) else Err(error)
  }

  // ---- Header fields ----

  type Fields = map<byte, seq<byte>>

  function HeaderField(id: byte, data: seq<byte>): seq<byte> {
    [id] + Le32(|data|) + data
  }

  /** The fields up to the end field, the last of each number, and the bytes after it. */
  function ReadFields(s: seq<byte>, acc: Fields): (r: Result<(Fields, seq<byte>)>)
    ensures r.Ok? ==> |r.value.1| <= |s|
    decreases |s|
  {
    if |s| < 5 then Err(Corrupt)
    else
      var id, len := s[0], LeNat(s[1..5]);
      if |s| < 5 + len then Err(Corrupt)
      else if id == 0 then Ok((acc, s[5 + len..]))
      else ReadFields(s[5 + len..], acc[id := s[5..5 + len]])
  }

  lemma FieldParts(id: byte, data: seq<byte>, rest: seq<byte>)
    requires |data| < W32
    ensures var s := HeaderField(id, data) + rest;
            |s| >= 5 + |data| && s[0] == id && LeNat(s[1..5]) == |data| && s[5..5 + |data|] == data && s[5 + |data|..] == rest
  {
    hide Le32;
    Le32Back(|data|);
    var s := HeaderField(id, data) + rest;
    assert s[1..5] == Le32(|data|);
  }

  /** A written field is read as one more entry of the map. */
  lemma {:induction false} FieldBack(id: byte, data: seq<byte>, rest: seq<byte>, acc: Fields)
    requires |data| < W32
    ensures ReadFields(HeaderField(id, data) + rest, acc)
         == if id == 0 then Ok((acc, rest)) else ReadFields(rest, acc[id := data])
  {
    hide HeaderField;
    FieldParts(id, data, rest);
  }

  method ParseHeaderFields(bytes: seq<byte>, start: nat) returns (r: Result<(Fields, nat)>)
    requires start <= |bytes|
    ensures match ReadFields(bytes[start..], map[])
            case Err(e) => r == Err(e)
            case Ok(f) => r.Ok? && r.value.0 == f.0 && r.value.1 <= |bytes| && bytes[r.value.1..] == f.1
  {
    var fields: Fields := map[];
    var pos := start;
    while true
      invariant start <= pos <= |bytes|
      invariant ReadFields(bytes[start..], map[]) == ReadFields(bytes[pos..], fields)
      decreases |bytes| - pos
    {
      ghost var s := bytes[pos..];
      if pos + 5 > |bytes| {
        return Err(Corrupt);
      }
      var id := bytes[pos];
      assert s[1..5] == bytes[pos + 1..pos + 5];
      var len := LeNat(bytes[pos + 1..pos + 5]);
      pos := pos + 5;
      if pos + len > |bytes| {
        return Err(Corrupt);
      }
      var data := bytes[pos..pos + len];
      assert data == s[5..5 + len];
      pos := pos + len;
      assert bytes[pos..] == s[5 + len..];
      if id == 0 {
        return Ok((fields, pos));
      }
      fields := fields[id := data];
    }
  }

  // ---- The variant dictionary of the key derivation parameters ----

  datatype Variant = Number(n: int) | Flag(b: bool) | Str(s: string) | Raw(bytes: seq<byte>)

  type Dict = map<string, Variant>

  datatype DictEntry = DictEntry(key: string, kind: byte, value: seq<byte>)

  function EntryBytes(e: DictEntry): seq<byte> {
    [e.kind] + Le32(|Utf8.Encode(e.key)|) + Utf8.Encode(e.key) + Le32(|e.value|) + e.value
  }

  function EntriesBytes(entries: seq<DictEntry>): seq<byte> {
    if entries == [] then [] else EntryBytes(entries[0]) + EntriesBytes(entries[1..])
  }

  /** Version 1.0, the entries and the end. */
  function VariantDict(entries: seq<DictEntry>): seq<byte> {
    [0, 1] + EntriesBytes(entries) + [0]
  }

  /** A 32-bit two's complement number. */
  function Signed32(n: nat): int
    requires n < W32
  {
    if n < 0x8000_0000 then n else n - W32
  }

  /** The value of an entry by its type; none where reading it throws. */
  function VariantOf(p: Platform, kind: byte, raw: seq<byte>): Option<Variant> {
    if kind == 0x04 then (if |raw| < 4 then None else Some(Number(LeNat(raw[..4]))))
    else if kind == 0x0c then
      if |raw| < 4 then None
      else
        LeNatBound(raw[..4]);
        Some(Number(Signed32(LeNat(raw[..4]))))
    else if kind == 0x05 || kind == 0x0d then (if |raw| < 8 then None else Some(Number(p.toNumber(LeNat(raw[..8])))))
    else if kind == 0x08 then Some(Flag(raw == [] || raw[0] != 0))
    else if kind == 0x18 then Some(Str(TextDecode(p, raw)))
    else Some(Raw(raw))
  }

  /** Reads entries up to the end; none where the source reads past the end of its buffer. */
  function ReadDict(p: Platform, s: seq<byte>, acc: Dict): Option<Dict>
    decreases |s|
  {
    if s == [] then None
    else if s[0] == 0 then Some(acc)
    else if |s| < 5 then None
    else
      var klen := LeNat(s[1..5]);
      if |s| < 9 + klen then None
      else
        var vlen := LeNat(s[5 + klen..9 + klen]);
        if |s| < 9 + klen + vlen then None
        else
          var key, raw := TextDecode(p, s[5..5 + klen]), s[9 + klen..9 + klen + vlen];
          match VariantOf(p, s[0], raw)
          case None => None
          case Some(v) => ReadDict(p, s[9 + klen + vlen..], acc[key := v])
  }

  lemma EntryParts(e: DictEntry, rest: seq<byte>)
    requires |Utf8.Encode(e.key)| < W32 && |e.value| < W32
    ensures var s, k, v := EntryBytes(e) + rest, |Utf8.Encode(e.key)|, |e.value|;
            && |s| >= 9 + k + v && s[0] == e.kind && LeNat(s[1..5]) == k && s[5..5 + k] == Utf8.Encode(e.key)
            && LeNat(s[5 + k..9 + k]) == v && s[9 + k..9 + k + v] == e.value && s[9 + k + v..] == rest
  {
    hide Le32, Utf8.Encode;
    var s, k, v := EntryBytes(e) + rest, |Utf8.Encode(e.key)|, |e.value|;
    Le32Back(k);
    Le32Back(v);
    assert s[1..5] == Le32(k);
    assert s[5 + k..9 + k] == Le32(v);
  }

  lemma {:induction false} EntryBack(p: Platform, e: DictEntry, rest: seq<byte>, acc: Dict)
    requires |Utf8.Encode(e.key)| < W32 && |e.value| < W32 && e.kind != 0
    requires e.key != "" && e.key[0] != '\U{FEFF}' && VariantOf(p, e.kind, e.value).Some?
    ensures ReadDict(p, EntryBytes(e) + rest, acc) == ReadDict(p, rest, acc[e.key := VariantOf(p, e.kind, e.value).value])
  {
    hide EntryBytes, VariantOf, TextDecode, Utf8.Encode;
    EntryParts(e, rest);
    TextDecodeBack(p, e.key);
  }

  /** One entry of the dictionary, read at a position. */
  lemma {:induction false} DictStep(p: Platform, bytes: seq<byte>, pos: nat, acc: Dict)
    requires pos + 5 <= |bytes| && bytes[pos] != 0
    ensures var klen := LeNat(bytes[pos + 1..pos + 5]);
            ReadDict(p, bytes[pos..], acc) ==
            if pos + 9 + klen > |bytes| then None
            else
              var vlen := LeNat(bytes[pos + 5 + klen..pos + 9 + klen]);
              if pos + 9 + klen + vlen > |bytes| then None
              else
                match VariantOf(p, bytes[pos], bytes[pos + 9 + klen..pos + 9 + klen + vlen])
                case None => None
                case Some(v) => ReadDict(p, bytes[pos + 9 + klen + vlen..], acc[TextDecode(p, bytes[pos + 5..pos + 5 + klen]) := v])
  {
    hide VariantOf, TextDecode, LeNat;
    SubOfDrop(bytes, pos, 1, 5);
    var klen := LeNat(bytes[pos + 1..pos + 5]);
    if pos + 9 + klen <= |bytes| {
      SubOfDrop(bytes, pos, 5, 5 + klen);
      SubOfDrop(bytes, pos, 5 + klen, 9 + klen);
      var vlen := LeNat(bytes[pos + 5 + klen..pos + 9 + klen]);
      if pos + 9 + klen + vlen <= |bytes| {
        SubOfDrop(bytes, pos, 9 + klen, 9 + klen + vlen);
        DropOfDrop(bytes, pos, 9 + klen + vlen);
      }
    }
  }

  lemma {:induction false} DictEnds(p: Platform, bytes: seq<byte>, pos: nat, acc: Dict)
    requires pos <= |bytes|
    ensures pos == |bytes| ==> ReadDict(p, bytes[pos..], acc) == None
    ensures pos < |bytes| && bytes[pos] == 0 ==> ReadDict(p, bytes[pos..], acc) == Some(acc)
    ensures pos < |bytes| < pos + 5 && bytes[pos] != 0 ==> ReadDict(p, bytes[pos..], acc) == None
  {
    hide VariantOf, TextDecode;
  }

  method ParseVariantDict(p: Platform, bytes: seq<byte>) returns (r: Option<Dict>)
    ensures r == if |bytes| < 2 then None else ReadDict(p, bytes[2..], map[])
  {
    hide VariantOf, TextDecode, ReadDict, LeNat;
    var out: Dict := map[];
    var pos := 2;
    if |bytes| < 2 {
      return None;
    }
    while true
      invariant 2 <= pos <= |bytes|
      invariant ReadDict(p, bytes[2..], map[]) == ReadDict(p, bytes[pos..], out)
      decreases |bytes| - pos
    {
      DictEnds(p, bytes, pos, out);
      if pos >= |bytes| {
        return None;
      }
      var kind := bytes[pos];
      if kind == 0 {
        return Some(out);
      }
      pos := pos + 1;
      if pos + 4 > |bytes| {
        return None;
      }
      DictStep(p, bytes, pos - 1, out);
      var klen := LeNat(bytes[pos..pos + 4]);
      if pos + 4 + klen + 4 > |bytes| {
        return None;
      }
      var key := TextDecode(p, bytes[pos + 4..pos + 4 + klen]);
      pos := pos + 4 + klen;
      var vlen := LeNat(bytes[pos..pos + 4]);
      if pos + 4 + vlen > |bytes| {
        return None;
      }
      var raw := bytes[pos + 4..pos + 4 + vlen];
      pos := pos + 4 + vlen;
      var value := VariantOf(p, kind, raw);
      if value.None? {
        return None;
      }
      out := out[key := value.value];
    }
  }

  // ---- The HMAC block stream ----

  const BLOCK: nat := 0x10_0000

  function BlockHmac(p: Platform, base: seq<byte>, index: nat, data: seq<byte>): seq<byte> {
    p.hmac(p.sha512(Le64Bytes(index) + base), Le64Bytes(index) + Le32(|data|) + data)
  }

  function BlockBytes(p: Platform, base: seq<byte>, index: nat, data: seq<byte>): seq<byte> {
    BlockHmac(p, base, index, data) + Le32(|data|) + data
  }

  /** The blocks of a ciphertext from number index on, and the empty block that ends them. */
  function BlockStream(p: Platform, base: seq<byte>, index: nat, ct: seq<byte>): seq<byte>
    decreases |ct|
  {
    if ct == [] then BlockBytes(p, base, index, [])
    else
      var n := if |ct| < BLOCK then |ct| else BLOCK;
      BlockBytes(p, base, index, ct[..n]) + BlockStream(p, base, index + 1, ct[n..])
  }

  /** The contents of the blocks up to the empty one. */
  function ReadBlocks(p: Platform, base: seq<byte>, index: nat, s: seq<byte>): Result<seq<byte>>
    decreases |s|
  {
    if |s| < 36 then Err(Corrupt)
    else
      var len := LeNat(s[32..36]);
      if |s| < 36 + len then Err(Corrupt)
      else if BlockHmac(p, base, index, s[36..36 + len]) != s[..32] then Err(Corrupt)
      else if len == 0 then Ok([])
      else
        match ReadBlocks(p, base, index + 1, s[36 + len..])
        case Err(e) => Err(e)
        case Ok(more) => Ok(s[36..36 + len] + more)
  }

  lemma BlockParts(p: Platform, base: seq<byte>, index: nat, data: seq<byte>, rest: seq<byte>)
    requires Lawful(p) && |data| < W32
    ensures var s := BlockBytes(p, base, index, data) + rest;
            && |s| >= 36 + |data| && LeNat(s[32..36]) == |data| && s[36..36 + |data|] == data
            && s[..32] == BlockHmac(p, base, index, data) && s[36 + |data|..] == rest
  {
    hide Le32, Le64Bytes;
    Le32Back(|data|);
    var h, s := BlockHmac(p, base, index, data), BlockBytes(p, base, index, data) + rest;
    assert |h| == 32;
    hide BlockHmac;
    assert s[32..36] == Le32(|data|);
  }

  /** Reading the block stream of a ciphertext gives the ciphertext, whatever follows the stream. */
  lemma {:induction false} BlocksBack(p: Platform, base: seq<byte>, index: nat, ct: seq<byte>, rest: seq<byte>)
    requires Lawful(p)
    ensures ReadBlocks(p, base, index, BlockStream(p, base, index, ct) + rest) == Ok(ct)
    decreases |ct|
  {
    hide BlockHmac, BlockBytes;
    if ct == [] {
      BlockParts(p, base, index, [], rest);
    } else {
      var n := if |ct| < BLOCK then |ct| else BLOCK;
      var more := BlockStream(p, base, index + 1, ct[n..]);
      BlockParts(p, base, index, ct[..n], more + rest);
      BlocksBack(p, base, index + 1, ct[n..], rest);
      assert BlockStream(p, base, index, ct) + rest == BlockBytes(p, base, index, ct[..n]) + (more + rest);
      assert ct == ct[..n] + ct[n..];
    }
  }

  /** The block loop of buildKdbx. */
  method WriteBlocks(p: Platform, base: seq<byte>, ct: seq<byte>) returns (out: seq<byte>)
    ensures out == BlockStream(p, base, 0, ct)
  {
    hide BlockBytes;
    out := [];
    var off, index := 0, 0;
    assert ct[0..] == ct;
    while off < |ct|
      invariant 0 <= off <= |ct| && index >= 0
      invariant out + BlockStream(p, base, index, ct[off..]) == BlockStream(p, base, 0, ct)
    {
      var end := if off + BLOCK < |ct| then off + BLOCK else |ct|;
      var data := ct[off..end];
      ghost var rest := ct[off..];
      assert rest[..end - off] == data && rest[end - off..] == ct[end..];
      out := out + BlockBytes(p, base, index, data);
      off, index := end, index + 1;
    }
    assert ct[off..] == [];
    out := out + BlockBytes(p, base, index, []);
  }

  /** One block, read at a position. */
  lemma {:induction false} BlockStep(p: Platform, base: seq<byte>, index: nat, bytes: seq<byte>, pos: nat)
    requires pos + 36 <= |bytes|
    ensures var len := LeNat(bytes[pos + 32..pos + 36]);
            ReadBlocks(p, base, index, bytes[pos..]) ==
            if pos + 36 + len > |bytes| then Err(Corrupt)
            else if BlockHmac(p, base, index, bytes[pos + 36..pos + 36 + len]) != bytes[pos..pos + 32] then Err(Corrupt)
            else if len == 0 then Ok([])
            else
              match ReadBlocks(p, base, index + 1, bytes[pos + 36 + len..])
              case Err(e) => Err(e)
              case Ok(more) => Ok(bytes[pos + 36..pos + 36 + len] + more)
  {
    hide BlockHmac, LeNat;
    SubOfDrop(bytes, pos, 0, 32);
    SubOfDrop(bytes, pos, 32, 36);
    var len := LeNat(bytes[pos + 32..pos + 36]);
    if pos + 36 + len <= |bytes| {
      SubOfDrop(bytes, pos, 36, 36 + len);
      DropOfDrop(bytes, pos, 36 + len);
    }
  }

  lemma {:induction false} BlockMissing(p: Platform, base: seq<byte>, index: nat, bytes: seq<byte>, pos: nat)
    requires pos <= |bytes| < pos + 36
    ensures ReadBlocks(p, base, index, bytes[pos..]) == Err(Corrupt)
  {
  }

  lemma PrependsMore(chunks: seq<byte>, data: seq<byte>, more: Result<seq<byte>>, r: Result<seq<byte>>)
    requires Prepends(chunks, match more case Err(e) => Err(e) case Ok(v) => Ok(data + v), r)
    ensures Prepends(chunks + data, more, r)
  {
    if more.Ok? {
      Grouped(chunks, data, more.value);
    }
  }

  method ParseBlocks(p: Platform, base: seq<byte>, bytes: seq<byte>, start: nat) returns (r: Result<seq<byte>>)
    requires start <= |bytes|
    ensures r == ReadBlocks(p, base, 0, bytes[start..])
  {
    hide BlockHmac, ReadBlocks, LeNat;
    var chunks := [];
    var pos, index := start, 0;
    while true
      invariant start <= pos <= |bytes| && index >= 0
      invariant Prepends(chunks, ReadBlocks(p, base, index, bytes[pos..]), ReadBlocks(p, base, 0, bytes[start..]))
      decreases |bytes| - pos
    {
      if pos + 36 > |bytes| {
        BlockMissing(p, base, index, bytes, pos);
        return Err(Corrupt);
      }
      BlockStep(p, base, index, bytes, pos);
      var hmac := bytes[pos..pos + 32];
      var len := LeNat(bytes[pos + 32..pos + 36]);
      if pos + 36 + len > |bytes| {
        return Err(Corrupt);
      }
      var data := bytes[pos + 36..pos + 36 + len];
      if BlockHmac(p, base, index, data) != hmac {
        return Err(Corrupt);
      }
      pos := pos + 36 + len;
      if len == 0 {
        assert chunks + [] == chunks;
        return Ok(chunks);
      }
      PrependsMore(chunks, data, ReadBlocks(p, base, index + 1, bytes[pos..]), ReadBlocks(p, base, 0, bytes[start..]));
      chunks := chunks + data;
      index := index + 1;
    }
  }

  /** r is more with head in front of it, or the same error. */
  predicate Prepends(head: seq<byte>, more: Result<seq<byte>>, r: Result<seq<byte>>) {
    if more.Ok? then r.Ok? && r.value == head + more.value else r == more
  }

  // ---- The inner header ----

  datatype Inner = Inner(streamId: nat, streamKey: Option<seq<byte>>, xml: seq<byte>)

  /** The fields in front of the XML. The end field may claim more bytes than there are. */
  function ReadInner(s: seq<byte>, streamId: nat, streamKey: Option<seq<byte>>): Result<Inner>
    decreases |s|
  {
    if |s| < 5 then Err(Crash)
    else
      var id, len := s[0], LeNat(s[1..5]);
      if id == 0 then Ok(Inner(streamId, streamKey, if 5 + len <= |s| then s[5 + len..] else []))
      else if 5 + len > |s| || (id == 1 && |s| < 9) then Err(Crash)
      else
        ReadInner(s[5 + len..], if id == 1 then LeNat(s[5..9]) else streamId,
          if id == 2 then Some(s[5..5 + len]) else streamKey)
  }

  /** One field of the inner header, read at a position of the payload. */
  lemma {:induction false} InnerStep(payload: seq<byte>, ipos: nat, streamId: nat, streamKey: Option<seq<byte>>)
    requires ipos <= |payload|
    ensures ReadInner(payload[ipos..], streamId, streamKey) ==
            if ipos + 5 > |payload| then Err(Crash)
            else
              var id, len := payload[ipos], LeNat(payload[ipos + 1..ipos + 5]);
              if id == 0 then Ok(Inner(streamId, streamKey, if ipos + 5 + len <= |payload| then payload[ipos + 5 + len..] else []))
              else if ipos + 5 + len > |payload| || (id == 1 && ipos + 9 > |payload|) then Err(Crash)
              else
                ReadInner(payload[ipos + 5 + len..], if id == 1 then LeNat(payload[ipos + 5..ipos + 9]) else streamId,
                  if id == 2 then Some(payload[ipos + 5..ipos + 5 + len]) else streamKey)
  {
    hide LeNat;
    if ipos + 5 <= |payload| {
      SubOfDrop(payload, ipos, 1, 5);
      var len := LeNat(payload[ipos + 1..ipos + 5]);
      if ipos + 5 + len <= |payload| {
        FieldAt(payload, ipos, len);
      }
    }
  }

  lemma FieldAt(payload: seq<byte>, ipos: nat, len: nat)
    requires ipos + 5 + len <= |payload|
    ensures payload[ipos..][5..5 + len] == payload[ipos + 5..ipos + 5 + len]
    ensures payload[ipos..][5 + len..] == payload[ipos + 5 + len..]
    ensures ipos + 9 <= |payload| ==> payload[ipos..][5..9] == payload[ipos + 5..ipos + 9]
  {
    SubOfDrop(payload, ipos, 5, 5 + len);
    DropOfDrop(payload, ipos, 5 + len);
    if ipos + 9 <= |payload| {
      SubOfDrop(payload, ipos, 5, 9);
    }
  }

  method ParseInner(payload: seq<byte>) returns (r: Result<Inner>)
    ensures r == ReadInner(payload, 0, None)
  {
    hide LeNat, ReadInner;
    var ipos, streamId, streamKey := 0, 0, None;
    assert payload[0..] == payload;
    while true
      invariant 0 <= ipos <= |payload| && streamId >= 0
      invariant ReadInner(payload, 0, None) == ReadInner(payload[ipos..], streamId, streamKey)
      decreases |payload| - ipos
    {
      InnerStep(payload, ipos, streamId, streamKey);
      if ipos + 5 > |payload| {
        return Err(Crash);
      }
      var id := payload[ipos];
      var len := LeNat(payload[ipos + 1..ipos + 5]);
      if id == 0 {
        return Ok(Inner(streamId, streamKey, if ipos + 5 + len <= |payload| then payload[ipos + 5 + len..] else []));
      }
      if ipos + 5 + len > |payload| || (id == 1 && ipos + 9 > |payload|) {
        return Err(Crash);
      }
      var data := payload[ipos + 5..ipos + 5 + len];
      if id == 1 {
        streamId := LeNat(payload[ipos + 5..ipos + 9]);
      } else if id == 2 {
        streamKey := Some(data);
      }
      ipos := ipos + 5 + len;
    }
  }

  lemma {:induction false} InnerFieldBack(id: byte, data: seq<byte>, rest: seq<byte>, streamId: nat, streamKey: Option<seq<byte>>)
    requires |data| < W32 && (id == 1 ==> |data| == 4)
    ensures ReadInner(HeaderField(id, data) + rest, streamId, streamKey)
         == if id == 0 then Ok(Inner(streamId, streamKey, rest))
            else ReadInner(rest, if id == 1 then LeNat(data) else streamId, if id == 2 then Some(data) else streamKey)
  {
    hide HeaderField;
    FieldParts(id, data, rest);
  }

  // ---- Identifiers ----

  function HexDigit(n: nat): char
    requires n < 16
  {
    "0123456789abcdef"[n]
  }

  /** bytesHex */
  function BytesHex(b: seq<byte>): string {
    if b == [] then "" else [HexDigit(b[0] / 16), HexDigit(b[0] % 16)] + BytesHex(b[1..])
  }

  lemma HexDigitsDiffer(m: nat, n: nat)
    requires m < 16 && n < 16 && HexDigit(m) == HexDigit(n)
    ensures m == n
  {
  }

  /** Comparing in hexadecimal is comparing. */
  lemma {:induction false} HexInjective(a: seq<byte>, b: seq<byte>)
    ensures BytesHex(a) == BytesHex(b) <==> a == b
  {
    hide HexDigit;
    if a != [] && b != [] && BytesHex(a) == BytesHex(b) {
      var s, t := BytesHex(a), BytesHex(b);
      assert s[0] == t[0] && s[1] == t[1] && s[2..] == BytesHex(a[1..]) && t[2..] == BytesHex(b[1..]);
      HexDigitsDiffer(a[0] / 16, b[0] / 16);
      HexDigitsDiffer(a[0] % 16, b[0] % 16);
      HexInjective(a[1..], b[1..]);
      assert a == [a[0]] + a[1..] && b == [b[0]] + b[1..];
    } else if a != [] {
      assert BytesHex(a) != "";
    } else if b != [] {
      assert BytesHex(b) != "";
    }
  }

  lemma {:induction false} HexOfSum(a: seq<byte>, b: seq<byte>)
    ensures BytesHex(a + b) == BytesHex(a) + BytesHex(b)
  {
    if a == [] {
      assert a + b == b;
    } else {
      TailOfSum(a, b);
      HexOfSum(a[1..], b);
      Grouped([HexDigit(a[0] / 16), HexDigit(a[0] % 16)], BytesHex(a[1..]), BytesHex(b));
    }
  }

  lemma {:induction false} HexOfFour(a: byte, b: byte, c: byte, d: byte, s: string)
    requires |s| == 8 && s[0] == HexDigit(a / 16) && s[1] == HexDigit(a % 16) && s[2] == HexDigit(b / 16) && s[3] == HexDigit(b % 16)
    requires s[4] == HexDigit(c / 16) && s[5] == HexDigit(c % 16) && s[6] == HexDigit(d / 16) && s[7] == HexDigit(d % 16)
    ensures BytesHex([a, b, c, d]) == s
  {
    hide HexDigit;
    assert [a, b, c, d][1..] == [b, c, d] && [b, c, d][1..] == [c, d] && [c, d][1..] == [d] && [d][1..] == [];
    assert BytesHex([d]) == [s[6], s[7]] + BytesHex([]);
    assert BytesHex([c, d]) == [s[4], s[5]] + BytesHex([d]);
    assert BytesHex([b, c, d]) == [s[2], s[3]] + BytesHex([c, d]);
  }

  const CIPHER_AES := "31c1f2e6" + ("bf714350" + ("be580521" + "6afc5aff"))
  const KDF_AES_UUID := "c9d9f39a" + ("628a4460" + ("bf740d08" + "c18a4fea"))

  lemma HexOfSixteen(a: seq<byte>, b: seq<byte>, c: seq<byte>, d: seq<byte>)
    ensures BytesHex(a + (b + (c + d))) == BytesHex(a) + (BytesHex(b) + (BytesHex(c) + BytesHex(d)))
  {
    hide BytesHex;
    HexOfSum(a, b + (c + d));
    HexOfSum(b, c + d);
    HexOfSum(c, d);
  }

  /** The reader looks for the identifiers that the writer writes. */
  lemma CipherId()
    ensures BytesHex(CIPHER_AES256) == CIPHER_AES
  {
    hide BytesHex;
    var a, b, c, d := [0x31, 0xc1, 0xf2, 0xe6], [0xbf, 0x71, 0x43, 0x50], [0xbe, 0x58, 0x05, 0x21], [0x6a, 0xfc, 0x5a, 0xff];
    assert BytesHex(a) == "31c1f2e6" by { HexOfFour(0x31, 0xc1, 0xf2, 0xe6, "31c1f2e6"); }
    assert BytesHex(b) == "bf714350" by { HexOfFour(0xbf, 0x71, 0x43, 0x50, "bf714350"); }
    assert BytesHex(c) == "be580521" by { HexOfFour(0xbe, 0x58, 0x05, 0x21, "be580521"); }
    assert BytesHex(d) == "6afc5aff" by { HexOfFour(0x6a, 0xfc, 0x5a, 0xff, "6afc5aff"); }
    assert CIPHER_AES256 == a + (b + (c + d));
    HexOfSixteen(a, b, c, d);
  }

  lemma KdfId()
    ensures BytesHex(KDF_AES) == KDF_AES_UUID
  {
    hide BytesHex;
    var a, b, c, d := [0xc9, 0xd9, 0xf3, 0x9a], [0x62, 0x8a, 0x44, 0x60], [0xbf, 0x74, 0x0d, 0x08], [0xc1, 0x8a, 0x4f, 0xea];
    assert BytesHex(a) == "c9d9f39a" by { HexOfFour(0xc9, 0xd9, 0xf3, 0x9a, "c9d9f39a"); }
    assert BytesHex(b) == "628a4460" by { HexOfFour(0x62, 0x8a, 0x44, 0x60, "628a4460"); }
    assert BytesHex(c) == "bf740d08" by { HexOfFour(0xbf, 0x74, 0x0d, 0x08, "bf740d08"); }
    assert BytesHex(d) == "c18a4fea" by { HexOfFour(0xc1, 0x8a, 0x4f, 0xea, "c18a4fea"); }
    assert KDF_AES == a + (b + (c + d));
    HexOfSixteen(a, b, c, d);
  }

  // ---- The keys ----

  const CIPHER_AES256: seq<byte> :=
    [0x31, 0xc1, 0xf2, 0xe6, 0xbf, 0x71, 0x43, 0x50, 0xbe, 0x58, 0x05, 0x21, 0x6a, 0xfc, 0x5a, 0xff]
  const KDF_AES: seq<byte> :=
    [0xc9, 0xd9, 0xf3, 0x9a, 0x62, 0x8a, 0x44, 0x60, 0xbf, 0x74, 0x0d, 0x08, 0xc1, 0x8a, 0x4f, 0xea]

  function Composite(p: Platform, password: string): seq<byte> {
    p.sha256(p.sha256(Utf8.Encode(password)))
  }

  /** The AES key derivation: both halves of the composite key, iterated. */
  function TransformedKey(p: Platform, composite: seq<byte>, seed: seq<byte>, rounds: nat): seq<byte>
    requires |composite| == 32
  {
    p.sha256(Cbc.Iterate(p.aes, seed, composite[..16], rounds) + Cbc.Iterate(p.aes, seed, composite[16..32], rounds))
  }

  method AesKdf(p: Platform, composite: seq<byte>, seed: seq<byte>, rounds: nat) returns (key: seq<byte>)
    requires Lawful(p) && |composite| == 32
    ensures key == TransformedKey(p, composite, seed, rounds)
  {
    var left := Cbc.AesKdfHalf(p.aes, seed, composite[..16], rounds, Cbc.CHUNK_BLOCKS);
    var right := Cbc.AesKdfHalf(p.aes, seed, composite[16..32], rounds, Cbc.CHUNK_BLOCKS);
    key := p.sha256(left + right);
  }

  function CipherKey(p: Platform, masterSeed: seq<byte>, transformed: seq<byte>): seq<byte> {
    p.sha256(masterSeed + transformed)
  }

  function HmacBase(p: Platform, masterSeed: seq<byte>, transformed: seq<byte>): seq<byte> {
    p.sha512(masterSeed + transformed + [1])
  }

  function HeaderHmac(p: Platform, base: seq<byte>, header: seq<byte>): seq<byte> {
    p.hmac(p.sha512([0xFF, 0xFF, 0xFF, 0xFF, 0xFF, 0xFF, 0xFF, 0xFF] + base), header)
  }

  // ---- Writing ----

  /** The random values of a file. */
  datatype Seeds = Seeds(master: seq<byte>, iv: seq<byte>, kdf: seq<byte>, inner: seq<byte>)

  predicate ValidSeeds(s: Seeds) {
    |s.master| == 32 && |s.iv| == 16 && |s.kdf| == 32 && |s.inner| == 64
  }

  function Signature(): seq<byte> {
    Le32(0x9aa2d903) + Le32(0xb54bfb67) + Le32(0x00040000)
  }

  function KdfEntries(seeds: Seeds, rounds: nat): seq<DictEntry> {
    [DictEntry("$UUID", 0x42, KDF_AES), DictEntry("R", 0x05, Le64Bytes(rounds)), DictEntry("S", 0x42, seeds.kdf)]
  }

  function Header(seeds: Seeds, rounds: nat): seq<byte> {
    Signature() + (HeaderField(2, CIPHER_AES256) + (HeaderField(3, Le32(0)) + (HeaderField(4, seeds.master)
    + (HeaderField(7, seeds.iv) + (HeaderField(11, VariantDict(KdfEntries(seeds, rounds))) + HeaderField(0, [13, 10, 13, 10]))))))
  }

  function InnerHeader(seeds: Seeds): seq<byte> {
    HeaderField(1, Le32(3)) + (HeaderField(2, seeds.inner) + HeaderField(0, []))
  }

  /** The whole file for an XML document. */
  function Sealed(p: Platform, seeds: Seeds, rounds: nat, password: string, xml: string): seq<byte>
    requires Lawful(p) && ValidSeeds(seeds)
  {
    var header := Header(seeds, rounds);
    var transformed := TransformedKey(p, Composite(p, password), seeds.kdf, rounds);
    var base := HmacBase(p, seeds.master, transformed);
    var ct := Cbc.Encrypt(p.aes, CipherKey(p, seeds.master, transformed), seeds.iv, InnerHeader(seeds) + Utf8.Encode(xml));
    header + (p.sha256(header) + (HeaderHmac(p, base, header) + BlockStream(p, base, 0, ct)))
  }

  method Seal(p: Platform, seeds: Seeds, rounds: nat, password: string, xml: string) returns (file: seq<byte>)
    requires Lawful(p) && ValidSeeds(seeds)
    ensures file == Sealed(p, seeds, rounds, password, xml)
  {
    hide TransformedKey, BlockStream, Header;
    var header := Header(seeds, rounds);
    var transformed := AesKdf(p, Composite(p, password), seeds.kdf, rounds);
    var base := HmacBase(p, seeds.master, transformed);
    var ct := Cbc.Encrypt(p.aes, CipherKey(p, seeds.master, transformed), seeds.iv, InnerHeader(seeds) + Utf8.Encode(xml));
    var blocks := WriteBlocks(p, base, ct);
    file := header + (p.sha256(header) + (HeaderHmac(p, base, header) + blocks));
  }

  // ---- Reading ----

  /** The XML of a file, and the key and nonce of the stream that protects values in it. */
  datatype Opened = Opened(xml: string, key: seq<byte>, nonce: seq<byte>)

  function Slice(s: seq<byte>, from: nat, to: nat): seq<byte>
    requires from <= to
  {
    var a := if from < |s| then from else |s|;
    var b := if to < |s| then to else |s|;
    s[a..b]
  }

  /** The parameters of the AES key derivation: the seed and the rounds. */
  function KdfParameters(dict: Dict): Result<(seq<byte>, nat)> {
    if "$UUID" !in dict then Err(Crash)
    else if !dict["$UUID"].Raw? || BytesHex(dict["$UUID"].bytes) != KDF_AES_UUID || "R" !in dict || !dict["R"].Number? then Err(Elsewhere)
    else if "S" !in dict || !dict["S"].Raw? || |dict["S"].bytes| !in {16, 24, 32} then Err(Crash)
    else Ok((dict["S"].bytes, if dict["R"].n > 0 then dict["R"].n else 0))
  }

  function Lookup(fields: Fields, id: byte): Result<seq<byte>> {
    if id in fields then Ok(fields[id]) else Err(Crash)
  }

  function DictOf(p: Platform, bytes: seq<byte>): Result<Dict> {
    if |bytes| < 2 then Err(Crash)
    else
      match ReadDict(p, bytes[2..], map[])
      case None => Err(Crash)
      case Some(d) => Ok(d)
  }

  /** decryptOuter and the compression flag. */
  function Payload(p: Platform, fields: Fields, key: seq<byte>, ct: seq<byte>): Result<seq<byte>> {
    var cipher :- Lookup(fields, 2);
    var _ :- Need(BytesHex(cipher) == CIPHER_AES, Elsewhere);
    if 7 !in fields then Err(BadPassword)
    else
      match Cbc.Decrypt(p.aes, key, fields[7], ct)
      case None => Err(BadPassword)
      case Some(payload) =>
        if 3 !in fields then Ok(payload)
        else if |fields[3]| < 4 then Err(Crash)
        else if LeNat(fields[3][..4]) == 1 then Err(Elsewhere)
        else Ok(payload)
  }

  function StreamOf(p: Platform, inner: Inner): Result<Opened> {
    if inner.streamId != 3 then Err(Elsewhere)
    else if inner.streamKey.None? then Err(Crash)
    else
      var h := p.sha512(inner.streamKey.value);
      if |h| != 64 then Err(Crash) else Ok(Opened(TextDecode(p, inner.xml), h[..32], h[32..44]))
  }

  /** readKdbx4: every check, in order. */
  function Kdbx4(p: Platform, bytes: seq<byte>, headerEnd: nat, fields: Fields, password: string): Result<Opened>
    requires Lawful(p) && headerEnd <= |bytes|
  {
    var header := bytes[..headerEnd];
    var _ :- Need(p.sha256(header) == Slice(bytes, headerEnd, headerEnd + 32), Corrupt);
    var dictBytes :- Lookup(fields, 11);
    var dict :- DictOf(p, dictBytes);
    var kdf :- KdfParameters(dict);
    var transformed := TransformedKey(p, Composite(p, password), kdf.0, kdf.1);
    var master :- Lookup(fields, 4);
    var base := HmacBase(p, master, transformed);
    var _ :- Need(HeaderHmac(p, base, header) == Slice(bytes, headerEnd + 32, headerEnd + 64), BadPassword);
    var ct :- ReadBlocks(p, base, 0, bytes[headerEnd + 64..]);
    var payload :- Payload(p, fields, CipherKey(p, master, transformed), ct);
    var inner :- ReadInner(payload, 0, None);
    StreamOf(p, inner)
  }

  method ReadKdbx4(p: Platform, bytes: seq<byte>, headerEnd: nat, password: string) returns (r: Result<Opened>)
    requires Lawful(p) && 12 <= headerEnd <= |bytes|
    requires ReadFields(bytes[12..], map[]).Ok?
    ensures r == Kdbx4(p, bytes, headerEnd, ReadFields(bytes[12..], map[]).value.0, password)
  {
    hide ReadFields, ReadDict, ReadBlocks, ReadInner, TransformedKey, HeaderHmac, HmacBase, CipherKey, Payload, StreamOf, KdfParameters;
    var parsed := ParseHeaderFields(bytes, 12);
    var fields := parsed.value.0;
    var header := bytes[..headerEnd];
    if p.sha256(header) != Slice(bytes, headerEnd, headerEnd + 32) {
      return Err(Corrupt);
    }
    if 11 !in fields {
      return Err(Crash);
    }
    var dict := ParseVariantDict(p, fields[11]);
    if dict.None? {
      return Err(Crash);
    }
    var kdf := KdfParameters(dict.value);
    if kdf.Err? {
      return Err(kdf.error);
    }
    var transformed := AesKdf(p, Composite(p, password), kdf.value.0, kdf.value.1);
    if 4 !in fields {
      return Err(Crash);
    }
    var base := HmacBase(p, fields[4], transformed);
    if HeaderHmac(p, base, header) != Slice(bytes, headerEnd + 32, headerEnd + 64) {
      return Err(BadPassword);
    }
    HashLengths(p, base, header);
    var ct := ParseBlocks(p, base, bytes, headerEnd + 64);
    if ct.Err? {
      return Err(ct.error);
    }
    var payload := Payload(p, fields, CipherKey(p, fields[4], transformed), ct.value);
    if payload.Err? {
      return Err(payload.error);
    }
    var inner := ParseInner(payload.value);
    if inner.Err? {
      return Err(inner.error);
    }
    r := StreamOf(p, inner.value);
  }

  /** The signature and the major version, then the reader for it. */
  function Opening(p: Platform, bytes: seq<byte>, password: string): Result<Opened>
    requires Lawful(p)
  {
    if |bytes| < 12 || LeNat(bytes[0..4]) != 0x9aa2d903 || LeNat(bytes[4..8]) != 0xb54bfb67 then Err(NotKdbx)
    else
      var major := LeNat(bytes[10..12]);
      if major == 4 then
        var f :- ReadFields(bytes[12..], map[]);
        Kdbx4(p, bytes, |bytes| - |f.1|, f.0, password)
      else if major == 3 || major == 2 then Err(Elsewhere)
      else Err(Unsupported)
  }

  method Open(p: Platform, bytes: seq<byte>, password: string) returns (r: Result<Opened>)
    requires Lawful(p)
    ensures r == Opening(p, bytes, password)
  {
    hide ReadFields, Kdbx4, LeNat;
    if |bytes| < 12 {
      return Err(NotKdbx);
    }
    if LeNat(bytes[0..4]) != 0x9aa2d903 || LeNat(bytes[4..8]) != 0xb54bfb67 {
      return Err(NotKdbx);
    }
    var major := LeNat(bytes[10..12]);
    if major == 4 {
      var f := ParseHeaderFields(bytes, 12);
      if f.Err? {
        return Err(f.error);
      }
      assert |bytes| - |bytes[f.value.1..]| == f.value.1;
      r := ReadKdbx4(p, bytes, f.value.1, password);
    } else if major == 3 || major == 2 {
      r := Err(Elsewhere);
    } else {
      r := Err(Unsupported);
    }
  }

  // ---- Round trip ----

  /** The fields a written header is read as. */
  function HeaderFields(seeds: Seeds, rounds: nat): Fields {
    map[2 := CIPHER_AES256, 3 := Le32(0), 4 := seeds.master, 7 := seeds.iv, 11 := VariantDict(KdfEntries(seeds, rounds))]
  }

  lemma SignatureBack(rest: seq<byte>)
    ensures var s := Signature() + rest;
            && |s| >= 12 && LeNat(s[0..4]) == 0x9aa2d903 && LeNat(s[4..8]) == 0xb54bfb67 && LeNat(s[10..12]) == 4 && s[12..] == rest
  {
    hide Le32;
    Le32Back(0x9aa2d903);
    Le32Back(0xb54bfb67);
    var s := Signature() + rest;
    assert s[0..4] == Le32(0x9aa2d903) && s[4..8] == Le32(0xb54bfb67);
    VersionBytes();
    assert s[10..12] == Le32(0x00040000)[2..4];
  }

  lemma VersionBytes()
    ensures LeNat(Le32(0x00040000)[2..4]) == 4
  {
    assert Le32(0x00040000) == [0, 0, 4, 0];
    assert Le32(0x00040000)[2..4] == [4, 0];
    assert [4, 0][1..] == [0] && [0][1..] == [];
  }

  lemma DictLength(seeds: Seeds, rounds: nat)
    requires ValidSeeds(seeds)
    ensures |VariantDict(KdfEntries(seeds, rounds))| < 200
  {
    ShortKey("$UUID");
    ShortKey("R");
    ShortKey("S");
    var e := KdfEntries(seeds, rounds);
    hide Utf8.Encode, Le32;
    ThreeEntries(e[0], e[1], e[2]);
  }

  lemma ThreeEntries(a: DictEntry, b: DictEntry, c: DictEntry)
    ensures EntriesBytes([a, b, c]) == EntryBytes(a) + (EntryBytes(b) + EntryBytes(c))
  {
    hide EntryBytes;
    assert [a, b, c][1..] == [b, c] && [b, c][1..] == [c] && [c][1..] == [];
    assert EntriesBytes([c]) == EntryBytes(c) + [];
  }

  lemma {:induction false} ShortKey(key: string)
    ensures |Utf8.Encode(key)| <= 4 * |key|
  {
    if key != "" {
      ShortKey(key[1..]);
    }
  }

  /** Reading a written header gives the fields and the bytes after it. */
  lemma HeaderBack(seeds: Seeds, rounds: nat, rest: seq<byte>)
    requires ValidSeeds(seeds)
    ensures |Header(seeds, rounds)| >= 12
    ensures ReadFields((Header(seeds, rounds) + rest)[12..], map[]) == Ok((HeaderFields(seeds, rounds), rest))
  {
    hide HeaderField, ReadFields, Le32, VariantDict;
    DictLength(seeds, rounds);
    var dict := VariantDict(KdfEntries(seeds, rounds));
    var f2, f3, f4 := HeaderField(2, CIPHER_AES256), HeaderField(3, Le32(0)), HeaderField(4, seeds.master);
    var f7, f11, f0 := HeaderField(7, seeds.iv), HeaderField(11, dict), HeaderField(0, [13, 10, 13, 10]);
    FieldBack(2, CIPHER_AES256, f3 + (f4 + (f7 + (f11 + (f0 + rest)))), map[]);
    FieldBack(3, Le32(0), f4 + (f7 + (f11 + (f0 + rest))), map[2 := CIPHER_AES256]);
    FieldBack(4, seeds.master, f7 + (f11 + (f0 + rest)), map[2 := CIPHER_AES256, 3 := Le32(0)]);
    FieldBack(7, seeds.iv, f11 + (f0 + rest), map[2 := CIPHER_AES256, 3 := Le32(0), 4 := seeds.master]);
    FieldBack(11, dict, f0 + rest, map[2 := CIPHER_AES256, 3 := Le32(0), 4 := seeds.master, 7 := seeds.iv]);
    FieldBack(0, [13, 10, 13, 10], rest, HeaderFields(seeds, rounds));
    assert (Header(seeds, rounds) + rest)[12..] == f2 + (f3 + (f4 + (f7 + (f11 + (f0 + rest)))));
  }

  /** Reading the written parameters gives the seed and the rounds. */
  lemma DictBack(p: Platform, seeds: Seeds, rounds: nat)
    requires Lawful(p) && ValidSeeds(seeds) && rounds < SAFE
    ensures var d := DictOf(p, VariantDict(KdfEntries(seeds, rounds)));
            d.Ok? && KdfParameters(d.value) == Ok((seeds.kdf, rounds))
  {
    hide EntryBytes, ReadDict, Le64Bytes, BytesHex;
    KdfId();
    ShortKey("$UUID");
    ShortKey("R");
    ShortKey("S");
    var e := KdfEntries(seeds, rounds);
    RoundsBack(p, rounds);
    var e0, e1, e2 := EntryBytes(e[0]), EntryBytes(e[1]), EntryBytes(e[2]);
    ThreeEntries(e[0], e[1], e[2]);
    assert VariantDict(e)[2..] == e0 + (e1 + (e2 + [0]));
    EntryBack(p, e[0], e1 + (e2 + [0]), map[]);
    EntryBack(p, e[1], e2 + [0], map["$UUID" := Raw(KDF_AES)]);
    EntryBack(p, e[2], [0], map["$UUID" := Raw(KDF_AES), "R" := Number(rounds)]);
    EndOfDict(p, map["$UUID" := Raw(KDF_AES), "R" := Number(rounds), "S" := Raw(seeds.kdf)]);
  }

  lemma {:induction false} EndOfDict(p: Platform, acc: Dict)
    ensures ReadDict(p, [0], acc) == Some(acc)
  {
  }

  lemma RoundsBack(p: Platform, rounds: nat)
    requires Lawful(p) && rounds < SAFE
    ensures VariantOf(p, 0x05, Le64Bytes(rounds)) == Some(Number(rounds))
  {
    Le64Back(rounds);
    assert Le64Bytes(rounds)[..8] == Le64Bytes(rounds);
  }

  lemma {:induction false} InnerBack(seeds: Seeds, xml: seq<byte>)
    requires ValidSeeds(seeds)
    ensures ReadInner(InnerHeader(seeds) + xml, 0, None) == Ok(Inner(3, Some(seeds.inner), xml))
  {
    hide HeaderField, ReadInner, Le32;
    Le32Back(3);
    var f1, f2, f0 := HeaderField(1, Le32(3)), HeaderField(2, seeds.inner), HeaderField(0, []);
    InnerFieldBack(1, Le32(3), f2 + (f0 + xml), 0, None);
    InnerFieldBack(2, seeds.inner, f0 + xml, 3, None);
    InnerFieldBack(0, [], xml, 3, Some(seeds.inner));
    assert InnerHeader(seeds) + xml == f1 + (f2 + (f0 + xml));
  }

  /** Deciphering the payload of a written file. */
  lemma PayloadBack(p: Platform, seeds: Seeds, rounds: nat, key: seq<byte>, plain: seq<byte>)
    requires Lawful(p) && ValidSeeds(seeds)
    ensures Payload(p, HeaderFields(seeds, rounds), key, Cbc.Encrypt(p.aes, key, seeds.iv, plain)) == Ok(plain)
  {
    hide Le32, VariantDict, Cbc.Encrypt, Cbc.Decrypt, BytesHex;
    CipherId();
    Cbc.DecryptEncrypt(p.aes, key, seeds.iv, plain);
    Le32Back(0);
    assert Le32(0)[..4] == Le32(0);
  }

  /**
   * A written file, opened with the password it was written with, passes every check and gives back exactly the
   * XML, with the key and the nonce of the stream it was written with.
   */
  lemma OpenSealed(p: Platform, seeds: Seeds, rounds: nat, password: string, xml: string)
    requires Lawful(p) && ValidSeeds(seeds) && rounds < SAFE
    requires !(xml != "" && xml[0] == '\U{FEFF}')
    ensures var h := p.sha512(seeds.inner);
            Opening(p, Sealed(p, seeds, rounds, password, xml), password) == Ok(Opened(xml, h[..32], h[32..44]))
  {
    hide Header, HeaderFields, ReadFields, TransformedKey, HmacBase, CipherKey, HeaderHmac, BlockStream, ReadBlocks, Payload, ReadInner,
      InnerHeader, DictOf, KdfParameters, TextDecode, Utf8.Encode, Cbc.Encrypt, VariantDict, KdfEntries, LeNat, Le32;
    var header := Header(seeds, rounds);
    var transformed := TransformedKey(p, Composite(p, password), seeds.kdf, rounds);
    var base, key := HmacBase(p, seeds.master, transformed), CipherKey(p, seeds.master, transformed);
    var plain := InnerHeader(seeds) + Utf8.Encode(xml);
    var ct := Cbc.Encrypt(p.aes, key, seeds.iv, plain);
    var hash, mac, blocks := p.sha256(header), HeaderHmac(p, base, header), BlockStream(p, base, 0, ct);
    var file := header + (hash + (mac + blocks));
    HashLengths(p, base, header);
    HeaderBack(seeds, rounds, hash + (mac + blocks));
    HeaderSigned(seeds, rounds, hash + (mac + blocks));
    PartsOfFour(header, hash, mac, blocks);
    assert file[|header| + 64..] == blocks + [];
    DictBack(p, seeds, rounds);
    FieldsOf(seeds, rounds);
    BlocksBack(p, base, 0, ct, []);
    PayloadBack(p, seeds, rounds, key, plain);
    InnerBack(seeds, Utf8.Encode(xml));
    TextDecodeBack(p, xml);
  }

  /** With another password the same file is refused as such, as soon as the two header HMACs differ. */
  lemma WrongPassword(p: Platform, seeds: Seeds, rounds: nat, password: string, other: string, xml: string)
    requires Lawful(p) && ValidSeeds(seeds) && rounds < SAFE
    requires var key := (w: string) => HmacBase(p, seeds.master, TransformedKey(p, Composite(p, w), seeds.kdf, rounds));
             HeaderHmac(p, key(password), Header(seeds, rounds)) != HeaderHmac(p, key(other), Header(seeds, rounds))
    ensures Opening(p, Sealed(p, seeds, rounds, password, xml), other) == Err(BadPassword)
  {
    hide Header, HeaderFields, ReadFields, TransformedKey, HmacBase, CipherKey, HeaderHmac, BlockStream, ReadBlocks, Payload, ReadInner,
      InnerHeader, DictOf, KdfParameters, TextDecode, Utf8.Encode, Cbc.Encrypt, VariantDict, KdfEntries, LeNat, Le32;
    var header := Header(seeds, rounds);
    var transformed := TransformedKey(p, Composite(p, password), seeds.kdf, rounds);
    var base := HmacBase(p, seeds.master, transformed);
    var ct := Cbc.Encrypt(p.aes, CipherKey(p, seeds.master, transformed), seeds.iv, InnerHeader(seeds) + Utf8.Encode(xml));
    var hash, mac, blocks := p.sha256(header), HeaderHmac(p, base, header), BlockStream(p, base, 0, ct);
    var file := header + (hash + (mac + blocks));
    HashLengths(p, base, header);
    HeaderBack(seeds, rounds, hash + (mac + blocks));
    HeaderSigned(seeds, rounds, hash + (mac + blocks));
    PartsOfFour(header, hash, mac, blocks);
    DictBack(p, seeds, rounds);
    FieldsOf(seeds, rounds);
  }

  lemma HashLengths(p: Platform, base: seq<byte>, header: seq<byte>)
    requires Lawful(p)
    ensures |p.sha256(header)| == 32 && |HeaderHmac(p, base, header)| == 32
  {
  }

  lemma FieldsOf(seeds: Seeds, rounds: nat)
    ensures var f := HeaderFields(seeds, rounds);
            4 in f && f[4] == seeds.master && 11 in f && f[11] == VariantDict(KdfEntries(seeds, rounds))
  {
  }

  lemma HeaderSigned(seeds: Seeds, rounds: nat, rest: seq<byte>)
    ensures var s := Header(seeds, rounds) + rest;
            |s| >= 12 && LeNat(s[0..4]) == 0x9aa2d903 && LeNat(s[4..8]) == 0xb54bfb67 && LeNat(s[10..12]) == 4
  {
    hide HeaderField, VariantDict, LeNat, Le32, Signature;
    var s := Header(seeds, rounds) + rest;
    var tail := Header(seeds, rounds)[|Signature()|..] + rest;
    assert s == Signature() + tail;
    SignatureBack(tail);
  }
}
