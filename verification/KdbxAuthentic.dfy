/**
 * What readKdbx4 of web/kdbx-read.js lets through: exactly the files whose header carries its hash and its HMAC and
 * whose blocks, one after the other, carry the HMAC for their number, up to an empty block.
 */
module KdbxAuthentic {
  import opened Bits
  import opened Bytes
  import opened JsInt
  import opened Sequences
  import opened Wrappers
  import opened KdbxContainer
  import Cbc
  import Utf8

  // ---- The block stream ----

  /** Chunks in frames, numbered from index on. */
  function Framed(p: Platform, base: seq<byte>, index: nat, chunks: seq<seq<byte>>): seq<byte>
    decreases |chunks|
  {
    if chunks == [] then [] else BlockBytes(p, base, index, chunks[0]) + Framed(p, base, index + 1, chunks[1..])
  }

  predicate Chunks(chunks: seq<seq<byte>>) {
    forall k :: 0 <= k < |chunks| ==> 0 < |chunks[k]| < W32
  }

  /** s is the frames of the chunks and the frame of the empty chunk, and then anything. */
  ghost predicate IsStream(p: Platform, base: seq<byte>, index: nat, s: seq<byte>, chunks: seq<seq<byte>>, rest: seq<byte>) {
    Chunks(chunks) && s == Framed(p, base, index, chunks) + (BlockBytes(p, base, index + |chunks|, []) + rest)
  }

  lemma {:induction false} Le32OfLeNat(b: seq<byte>)
    requires |b| == 4
    ensures LeNat(b) < W32 && Le32(LeNat(b)) == b
  {
    var d0, d1, d2, d3 := b[0], b[1], b[2], b[3];
    assert b == [d0, d1, d2, d3];
    LeNatOfFour(d0, d1, d2, d3);
    DigitsOf(d0, d1, d2, d3);
  }

  lemma DigitsOf(d0: byte, d1: byte, d2: byte, d3: byte)
    ensures var n := d0 as int + 256 * (d1 as int + 256 * (d2 as int + 256 * d3 as int));
            0 <= n < W32 && Le32(n) == [d0, d1, d2, d3]
  {
    var n1 := d1 as int + 256 * (d2 as int + 256 * d3 as int);
    var n2 := d2 as int + 256 * d3 as int;
    var n := d0 as int + 256 * n1;
    DivModUnique(n, 256, n1, d0);
    DivModUnique(n, 0x1_0000, n2, d0 + 256 * d1);
    DivModUnique(n, 0x100_0000, d3, d0 + 256 * d1 + 0x1_0000 * d2);
    DivModUnique(n1, 256, n2, d1);
    DivModUnique(n2, 256, d3, d2);
  }

  /** The bytes of a frame whose HMAC is right. */
  lemma FrameOfParts(p: Platform, base: seq<byte>, index: nat, s: seq<byte>)
    requires |s| >= 36 && |s| >= 36 + LeNat(s[32..36])
    requires BlockHmac(p, base, index, s[36..36 + LeNat(s[32..36])]) == s[..32]
    ensures var len := LeNat(s[32..36]);
            s == BlockBytes(p, base, index, s[36..36 + len]) + s[36 + len..] && len < W32
  {
    hide BlockHmac, LeNat, Le32;
    Le32OfLeNat(s[32..36]);
  }

  /** What an accepted stream consists of. */
  lemma {:induction false} AcceptedParts(p: Platform, base: seq<byte>, index: nat, s: seq<byte>)
    returns (chunks: seq<seq<byte>>, rest: seq<byte>)
    requires ReadBlocks(p, base, index, s).Ok?
    ensures IsStream(p, base, index, s, chunks, rest) && ReadBlocks(p, base, index, s).value == Joined(chunks)
    decreases |s|
  {
    hide BlockHmac, LeNat, Le32, BlockBytes;
    var len := LeNat(s[32..36]);
    FrameOfParts(p, base, index, s);
    if len == 0 {
      chunks, rest := [], s[36..];
      assert [] + s == s;
    } else {
      var more;
      more, rest := AcceptedParts(p, base, index + 1, s[36 + len..]);
      var data := s[36..36 + len];
      chunks := [data] + more;
      assert chunks[1..] == more;
      Grouped(BlockBytes(p, base, index, data), Framed(p, base, index + 1, more), BlockBytes(p, base, index + |chunks|, []) + rest);
    }
  }

  function Joined(chunks: seq<seq<byte>>): seq<byte> {
    if chunks == [] then [] else chunks[0] + Joined(chunks[1..])
  }

  /** Frames in front are read and their chunks are put in front. */
  lemma {:induction false} FramesRead(p: Platform, base: seq<byte>, index: nat, chunks: seq<seq<byte>>, more: seq<byte>)
    requires Lawful(p) && Chunks(chunks)
    ensures ReadBlocks(p, base, index, Framed(p, base, index, chunks) + more)
      == match ReadBlocks(p, base, index + |chunks|, more)
         case Err(e) => Err(e)
         case Ok(value) => Ok(Joined(chunks) + value)
    decreases |chunks|
  {
    hide BlockHmac, BlockBytes, LeNat, Le32;
    if chunks == [] {
      assert [] + more == more;
      var r := ReadBlocks(p, base, index, more);
      if r.Ok? {
        assert [] + r.value == r.value;
      }
    } else {
      hide ReadBlocks;
      var tail := Framed(p, base, index + 1, chunks[1..]);
      Grouped(BlockBytes(p, base, index, chunks[0]), tail, more);
      FrameRead(p, base, index, chunks[0], tail + more);
      FramesRead(p, base, index + 1, chunks[1..], more);
      var r := ReadBlocks(p, base, index + |chunks|, more);
      if r.Ok? {
        Grouped(chunks[0], Joined(chunks[1..]), r.value);
      }
    }
  }

  lemma {:induction false} FrameRead(p: Platform, base: seq<byte>, index: nat, data: seq<byte>, more: seq<byte>)
    requires Lawful(p) && |data| < W32
    ensures ReadBlocks(p, base, index, BlockBytes(p, base, index, data) + more)
      == if data == [] then Ok([])
         else match ReadBlocks(p, base, index + 1, more)
              case Err(e) => Err(e)
              case Ok(value) => Ok(data + value)
  {
    hide BlockHmac, BlockBytes, LeNat, Le32;
    BlockParts(p, base, index, data, more);
  }

  /**
   * A stream is accepted with a ciphertext if and only if it starts with the frames of non-empty chunks that make up
   * that ciphertext, each with the HMAC for its number, and the frame of an empty chunk.
   */
  lemma {:induction false} AcceptedIff(p: Platform, base: seq<byte>, index: nat, s: seq<byte>, ct: seq<byte>)
    requires Lawful(p)
    ensures ReadBlocks(p, base, index, s) == Ok(ct)
      <==> exists chunks, rest :: IsStream(p, base, index, s, chunks, rest) && Joined(chunks) == ct
  {
    hide ReadBlocks, BlockBytes;
    if ReadBlocks(p, base, index, s) == Ok(ct) {
      var chunks, rest := AcceptedParts(p, base, index, s);
    }
    if chunks, rest :| IsStream(p, base, index, s, chunks, rest) && Joined(chunks) == ct {
      FramesRead(p, base, index, chunks, BlockBytes(p, base, index + |chunks|, []) + rest);
      FrameRead(p, base, index + |chunks|, [], rest);
      assert Joined(chunks) + [] == Joined(chunks);
    }
  }

  /** Everything else is corrupt. */
  lemma {:induction false} OtherwiseCorrupt(p: Platform, base: seq<byte>, index: nat, s: seq<byte>)
    ensures ReadBlocks(p, base, index, s).Ok? || ReadBlocks(p, base, index, s) == Err(Corrupt)
    decreases |s|
  {
    hide BlockHmac, LeNat;
    if |s| >= 36 && |s| >= 36 + LeNat(s[32..36]) {
      OtherwiseCorrupt(p, base, index + 1, s[36 + LeNat(s[32..36])..]);
    }
  }

  /** A block with a wrong HMAC behind good ones: the stream is corrupt, whatever follows. */
  lemma {:induction false} ForgedBlock(p: Platform, base: seq<byte>, index: nat, chunks: seq<seq<byte>>, tag: seq<byte>, data: seq<byte>, more: seq<byte>)
    requires Lawful(p) && Chunks(chunks) && |data| < W32 && |tag| == 32 && tag != BlockHmac(p, base, index + |chunks|, data)
    ensures ReadBlocks(p, base, index, Framed(p, base, index, chunks) + (tag + (Le32(|data|) + (data + more)))) == Err(Corrupt)
  {
    hide BlockHmac, LeNat, Le32, Framed;
    var s := tag + (Le32(|data|) + (data + more));
    FramesRead(p, base, index, chunks, s);
    PartsOfFour(tag, Le32(|data|), data, more);
    Le32Back(|data|);
    assert s[32..36] == Le32(|data|) && s[36..36 + |data|] == data;
  }

  // ---- What the HMACs are taken of ----

  /**
   * Key and message of a block's HMAC. Number, length, data and key base can be read off them, so that no two
   * different blocks share both.
   */
  lemma BlockInputs(p: Platform, base: seq<byte>, index: nat, data: seq<byte>) returns (key: seq<byte>, message: seq<byte>)
    requires index < W64 && |data| < W32
    ensures BlockHmac(p, base, index, data) == p.hmac(p.sha512(key), message)
    ensures |key| >= 8 && LeNat(key[..8]) == index && key[8..] == base
    ensures |message| >= 12 && LeNat(message[..8]) == index && LeNat(message[8..12]) == |data| && message[12..] == data
  {
    hide LeNat, Le32, Le64Bytes;
    Le64Back(index);
    Le32Back(|data|);
    key := Le64Bytes(index) + base;
    message := Le64Bytes(index) + Le32(|data|) + data;
    assert message[..8] == Le64Bytes(index) && message[8..12] == Le32(|data|);
  }

  /** Key of the header's HMAC: the number is the one behind all block numbers. */
  lemma HeaderInput(p: Platform, base: seq<byte>, header: seq<byte>) returns (key: seq<byte>)
    ensures HeaderHmac(p, base, header) == p.hmac(p.sha512(key), header)
    ensures |key| >= 8 && LeNat(key[..8]) == W64 - 1 && key[8..] == base
  {
    hide LeNat;
    var ff: seq<byte> := [0xFF, 0xFF, 0xFF, 0xFF];
    key := [0xFF, 0xFF, 0xFF, 0xFF, 0xFF, 0xFF, 0xFF, 0xFF] + base;
    assert key[..8] == ff + ff;
    LeNatOfFour(0xFF, 0xFF, 0xFF, 0xFF);
    LeNatConcat(ff, ff);
    LeNatBound([]);
  }

  /** What the keys of a file are taken of: the UTF-8 of the password, and the seed with what was derived from it. */
  lemma KeyTexts(p: Platform, password: string, master: seq<byte>, transformed: seq<byte>) returns (utf8: seq<byte>, text: seq<byte>)
    ensures Composite(p, password) == p.sha256(p.sha256(utf8)) && Utf8.Decode(utf8) == Some(password)
    ensures CipherKey(p, master, transformed) == p.sha256(text) && HmacBase(p, master, transformed) == p.sha512(text + [1])
    ensures |text| == |master| + |transformed| && text[..|master|] == master && text[|master|..] == transformed
  {
    hide Utf8.Encode, Utf8.Decode;
    Utf8.DecodeEncode(password);
    utf8, text := Utf8.Encode(password), master + transformed;
  }

  // ---- Files ----

  /** Starts like a KDBX 4 file whose header fields can be read; they end where headerEnd says. */
  predicate HasHeader(bytes: seq<byte>, fields: Fields, headerEnd: nat) {
    && 12 <= headerEnd <= |bytes| && LeNat(bytes[0..4]) == 0x9aa2d903 && LeNat(bytes[4..8]) == 0xb54bfb67 && LeNat(bytes[10..12]) == 4
    && ReadFields(bytes[12..], map[]) == Ok((fields, bytes[headerEnd..]))
  }

  lemma OpensAs4(p: Platform, bytes: seq<byte>, fields: Fields, headerEnd: nat, password: string)
    requires Lawful(p) && HasHeader(bytes, fields, headerEnd)
    ensures Opening(p, bytes, password) == Kdbx4(p, bytes, headerEnd, fields, password)
  {
    hide ReadFields, Kdbx4, LeNat;
  }

  /** A header in front of the hash of another header. */
  lemma HeaderChanged(p: Platform, bytes: seq<byte>, fields: Fields, headerEnd: nat, password: string)
    requires Lawful(p) && HasHeader(bytes, fields, headerEnd)
    requires Slice(bytes, headerEnd, headerEnd + 32) != p.sha256(bytes[..headerEnd])
    ensures Opening(p, bytes, password) == Err(Corrupt)
  {
    hide HasHeader, Slice;
    OpensAs4(p, bytes, fields, headerEnd, password);
  }

  /** The key of all HMACs of a file. */
  ghost predicate KeyBase(p: Platform, fields: Fields, password: string, base: seq<byte>)
    requires Lawful(p)
  {
    4 in fields && 11 in fields &&
    exists dict, kdf :: DictOf(p, fields[11]) == Ok(dict) && KdfParameters(dict) == Ok(kdf)
      && base == HmacBase(p, fields[4], TransformedKey(p, Composite(p, password), kdf.0, kdf.1))
  }

  /**
   * Every file that is opened consists of a header, its hash, its HMAC, frames with the HMACs for their numbers and
   * the frame of the empty chunk.
   */
  lemma OpenedIsAuthentic(p: Platform, bytes: seq<byte>, password: string)
    returns (fields: Fields, header: seq<byte>, base: seq<byte>, chunks: seq<seq<byte>>, rest: seq<byte>)
    requires Lawful(p) && Opening(p, bytes, password).Ok?
    ensures HasHeader(bytes, fields, |header|) && KeyBase(p, fields, password, base)
    ensures exists s :: IsStream(p, base, 0, s, chunks, rest) && bytes == header + (p.sha256(header) + (HeaderHmac(p, base, header) + s))
  {
    hide ReadFields, LeNat, DictOf, KdfParameters, TransformedKey, HmacBase, HeaderHmac, ReadBlocks, Payload, ReadInner, StreamOf, CipherKey, IsStream, Slice;
    var f := ReadFields(bytes[12..], map[]).value;
    FieldsEnd(bytes[12..], map[]);
    var headerEnd := |bytes| - |f.1|;
    fields, header := f.0, bytes[..headerEnd];
    assert f.1 == bytes[headerEnd..];
    var kdf := KdfParameters(DictOf(p, fields[11]).value).value;
    base := HmacBase(p, fields[4], TransformedKey(p, Composite(p, password), kdf.0, kdf.1));
    HashLengths(p, base, header);
    FourParts(bytes, headerEnd, p.sha256(header), HeaderHmac(p, base, header));
    chunks, rest := AcceptedParts(p, base, 0, bytes[headerEnd + 64..]);
  }

  lemma FourParts(bytes: seq<byte>, n: nat, hash: seq<byte>, mac: seq<byte>)
    requires n <= |bytes| && |hash| == |mac| == 32 && hash == Slice(bytes, n, n + 32) && mac == Slice(bytes, n + 32, n + 64)
    ensures n + 64 <= |bytes| && bytes == bytes[..n] + (hash + (mac + bytes[n + 64..]))
  {
  }

  lemma {:induction false} FieldsEnd(s: seq<byte>, acc: Fields)
    requires ReadFields(s, acc).Ok?
    ensures var rest := ReadFields(s, acc).value.1; |rest| <= |s| && rest == s[|s| - |rest|..]
    decreases |s|
  {
    hide LeNat;
    var id, len := s[0], LeNat(s[1..5]);
    if id != 0 {
      FieldsEnd(s[5 + len..], acc[id := s[5..5 + len]]);
    }
  }

  /** The front of a written file, up to the blocks. */
  function Front(p: Platform, seeds: Seeds, base: seq<byte>, rounds: nat, s: seq<byte>): seq<byte> {
    var header := Header(seeds, rounds);
    header + (p.sha256(header) + (HeaderHmac(p, base, header) + s))
  }

  /** The blocks of a written file replaced by anything else: what becomes of it depends on the stream alone. */
  lemma OpenFront(p: Platform, seeds: Seeds, rounds: nat, password: string, s: seq<byte>)
    requires Lawful(p) && ValidSeeds(seeds) && rounds < SAFE
    ensures var transformed := TransformedKey(p, Composite(p, password), seeds.kdf, rounds);
            var base := HmacBase(p, seeds.master, transformed);
            Opening(p, Front(p, seeds, base, rounds, s), password) ==
            match ReadBlocks(p, base, 0, s)
            case Err(e) => Err(e)
            case Ok(ct) => Deciphered(p, HeaderFields(seeds, rounds), CipherKey(p, seeds.master, transformed), ct)
  {
    hide Header, HeaderFields, ReadFields, TransformedKey, HmacBase, CipherKey, HeaderHmac, ReadBlocks, Payload, ReadInner,
      DictOf, KdfParameters, Utf8.Encode, VariantDict, KdfEntries, LeNat, Le32;
    var header := Header(seeds, rounds);
    var transformed := TransformedKey(p, Composite(p, password), seeds.kdf, rounds);
    var base := HmacBase(p, seeds.master, transformed);
    var hash, mac := p.sha256(header), HeaderHmac(p, base, header);
    HashLengths(p, base, header);
    HeaderBack(seeds, rounds, hash + (mac + s));
    HeaderSigned(seeds, rounds, hash + (mac + s));
    PartsOfFour(header, hash, mac, s);
    DictBack(p, seeds, rounds);
    FieldsOf(seeds, rounds);
  }

  function Deciphered(p: Platform, fields: Fields, key: seq<byte>, ct: seq<byte>): Result<Opened>
    requires Lawful(p)
  {
    var payload :- Payload(p, fields, key, ct);
    var inner :- ReadInner(payload, 0, None);
    StreamOf(p, inner)
  }

  lemma {:induction false} InnerNotCorrupt(s: seq<byte>, streamId: nat, streamKey: Option<seq<byte>>)
    ensures ReadInner(s, streamId, streamKey) != Err(Corrupt)
    decreases |s|
  {
    hide LeNat;
    if |s| >= 5 {
      var id, len := s[0], LeNat(s[1..5]);
      if id != 0 && 5 + len <= |s| && !(id == 1 && |s| < 9) {
        InnerNotCorrupt(s[5 + len..], if id == 1 then LeNat(s[5..9]) else streamId, if id == 2 then Some(s[5..5 + len]) else streamKey);
      }
    }
  }

  /**
   * A written file whose blocks have been replaced is reported as corrupt if and only if what stands there is not a
   * stream of frames with the HMACs for their numbers.
   */
  lemma BlocksCorruptIff(p: Platform, seeds: Seeds, rounds: nat, password: string, s: seq<byte>)
    requires Lawful(p) && ValidSeeds(seeds) && rounds < SAFE
    ensures var base := HmacBase(p, seeds.master, TransformedKey(p, Composite(p, password), seeds.kdf, rounds));
            Opening(p, Front(p, seeds, base, rounds, s), password) == Err(Corrupt)
            <==> !exists chunks, rest :: IsStream(p, base, 0, s, chunks, rest)
  {
    hide TransformedKey, Front, HmacBase, CipherKey, ReadBlocks, ReadInner, IsStream, HeaderFields, LeNat, Opening;
    var transformed := TransformedKey(p, Composite(p, password), seeds.kdf, rounds);
    var base := HmacBase(p, seeds.master, transformed);
    OpenFront(p, seeds, rounds, password, s);
    OtherwiseCorrupt(p, base, 0, s);
    var r := ReadBlocks(p, base, 0, s);
    if r.Ok? {
      AcceptedIff(p, base, 0, s, r.value);
      DecipheredNotCorrupt(p, HeaderFields(seeds, rounds), CipherKey(p, seeds.master, transformed), r.value);
    }
    if chunks, rest :| IsStream(p, base, 0, s, chunks, rest) {
      AcceptedIff(p, base, 0, s, Joined(chunks));
    }
  }

  lemma DecipheredNotCorrupt(p: Platform, fields: Fields, key: seq<byte>, ct: seq<byte>)
    requires Lawful(p)
    ensures Deciphered(p, fields, key, ct) != Err(Corrupt)
  {
    hide ReadInner, LeNat, Cbc.Decrypt;
    var payload := Payload(p, fields, key, ct);
    if payload.Ok? {
      InnerNotCorrupt(payload.value, 0, None);
    }
  }

  /** A written file with a block whose HMAC is not the one stored before it is refused as corrupt. */
  lemma ForgedFile(p: Platform, seeds: Seeds, rounds: nat, password: string, chunks: seq<seq<byte>>, tag: seq<byte>, data: seq<byte>, more: seq<byte>)
    requires Lawful(p) && ValidSeeds(seeds) && rounds < SAFE && Chunks(chunks) && |data| < W32 && |tag| == 32
    requires var base := HmacBase(p, seeds.master, TransformedKey(p, Composite(p, password), seeds.kdf, rounds));
             tag != BlockHmac(p, base, |chunks|, data)
    ensures var base := HmacBase(p, seeds.master, TransformedKey(p, Composite(p, password), seeds.kdf, rounds));
            Opening(p, Front(p, seeds, base, rounds, Framed(p, base, 0, chunks) + (tag + (Le32(|data|) + (data + more)))), password) == Err(Corrupt)
  {
    hide TransformedKey, Front, HmacBase, CipherKey, ReadBlocks, Deciphered, HeaderFields, Opening, BlockHmac, Framed, Le32;
    var base := HmacBase(p, seeds.master, TransformedKey(p, Composite(p, password), seeds.kdf, rounds));
    var s := Framed(p, base, 0, chunks) + (tag + (Le32(|data|) + (data + more)));
    OpenFront(p, seeds, rounds, password, s);
    ForgedBlock(p, base, 0, chunks, tag, data, more);
  }
}
