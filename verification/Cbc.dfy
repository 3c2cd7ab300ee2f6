/**
 * AES-CBC with PKCS #7 padding over an arbitrary block cipher, and the AES-KDF of web/export.js on top of it.
 */
module Cbc {
  import opened Bits
  import opened Bytes
  import opened Wrappers

  /** Encryption and decryption of one block under a key: not part of this model but for its length and inverse. */
  datatype BlockCipher = BlockCipher(enc: (seq<byte>, seq<byte>) -> seq<byte>, dec: (seq<byte>, seq<byte>) -> seq<byte>)

  ghost predicate Lawful(c: BlockCipher) {
    forall k, b :: |b| == 16 ==> |c.enc(k, b)| == 16 && c.dec(k, c.enc(k, b)) == b
  }

  function XorBytes(a: seq<byte>, b: seq<byte>): (r: seq<byte>)
    requires |a| == |b|
    ensures |r| == |a|
  {
    seq(|a|, i requires 0 <= i < |a| => XorByte(a[i], b[i]))
  }

  lemma XorBytesCancel(a: seq<byte>, b: seq<byte>)
    requires |a| == |b|
    ensures XorBytes(XorBytes(a, b), b) == a
  {
    hide XorByte;
    forall i | 0 <= i < |a| ensures XorBytes(XorBytes(a, b), b)[i] == a[i] {
      XorByteCancel(a[i], b[i]);
    }
  }

  lemma XorByteCancel(a: byte, b: byte)
    ensures XorByte(XorByte(a, b), b) == a
  {
    hide Xor;
    XorCancel(a, b);
  }

  lemma ZeroXor(b: seq<byte>)
    ensures XorBytes(Zeros(|b|), b) == b
  {
    forall i | 0 <= i < |b| ensures XorBytes(Zeros(|b|), b)[i] == b[i] {
      XorZero(b[i]);
    }
  }

  predicate Whole(s: seq<byte>) {
    |s| % 16 == 0
  }

  /** Cipher block chaining of whole blocks. */
  function Chain(c: BlockCipher, key: seq<byte>, iv: seq<byte>, plain: seq<byte>): (r: seq<byte>)
    requires |iv| == 16 && Whole(plain)
    decreases |plain|
  {
    if plain == [] then []
    else
      var x := c.enc(key, XorBytes(plain[..16], iv));
      if |x| == 16 then x + Chain(c, key, x, plain[16..]) else []
  }

  function Unchain(c: BlockCipher, key: seq<byte>, iv: seq<byte>, ct: seq<byte>): seq<byte>
    requires |iv| == 16 && Whole(ct)
    decreases |ct|
  {
    if ct == [] then []
    else
      var x := c.dec(key, ct[..16]);
      (if |x| == 16 then XorBytes(x, iv) else []) + Unchain(c, key, ct[..16], ct[16..])
  }

  lemma {:induction false} ChainLength(c: BlockCipher, key: seq<byte>, iv: seq<byte>, plain: seq<byte>)
    requires Lawful(c) && |iv| == 16 && Whole(plain)
    ensures |Chain(c, key, iv, plain)| == |plain|
    decreases |plain|
  {
    if plain != [] {
      var x := c.enc(key, XorBytes(plain[..16], iv));
      assert |x| == 16;
      ChainLength(c, key, x, plain[16..]);
    }
  }

  lemma {:induction false} UnchainChain(c: BlockCipher, key: seq<byte>, iv: seq<byte>, plain: seq<byte>)
    requires Lawful(c) && |iv| == 16 && Whole(plain)
    ensures Whole(Chain(c, key, iv, plain)) && Unchain(c, key, iv, Chain(c, key, iv, plain)) == plain
    decreases |plain|
  {
    hide XorBytes;
    ChainLength(c, key, iv, plain);
    if plain != [] {
      var p := XorBytes(plain[..16], iv);
      var x := c.enc(key, p);
      assert |x| == 16 && c.dec(key, x) == p;
      ChainLength(c, key, x, plain[16..]);
      UnchainChain(c, key, x, plain[16..]);
      var ct := Chain(c, key, iv, plain);
      assert ct[..16] == x && ct[16..] == Chain(c, key, x, plain[16..]);
      XorBytesCancel(plain[..16], iv);
      assert plain == plain[..16] + plain[16..];
    }
  }

  function Padding(n: nat): (r: seq<byte>)
    ensures 1 <= |r| <= 16 && (n + |r|) % 16 == 0
  {
    var k := 16 - n % 16;
    seq(k, _ => k)
  }

  function Unpadded(s: seq<byte>): Option<seq<byte>> {
    if s == [] then None
    else
      var k := s[|s| - 1] as int;
      if 1 <= k <= 16 && k <= |s| && (forall i :: |s| - k <= i < |s| ==> s[i] == k) then Some(s[..|s| - k]) else None
  }

  /** subtle.encrypt for AES-CBC. */
  function Encrypt(c: BlockCipher, key: seq<byte>, iv: seq<byte>, plain: seq<byte>): seq<byte>
    requires |iv| == 16
  {
    Chain(c, key, iv, plain + Padding(|plain|))
  }

  /** subtle.decrypt for AES-CBC: none where it throws. */
  function Decrypt(c: BlockCipher, key: seq<byte>, iv: seq<byte>, ct: seq<byte>): Option<seq<byte>> {
    if |iv| != 16 || !Whole(ct) then None else Unpadded(Unchain(c, key, iv, ct))
  }

  lemma UnpadPadding(plain: seq<byte>)
    ensures Unpadded(plain + Padding(|plain|)) == Some(plain)
  {
    var s := plain + Padding(|plain|);
    var k := |Padding(|plain|)|;
    assert s[..|s| - k] == plain;
  }

  lemma DecryptEncrypt(c: BlockCipher, key: seq<byte>, iv: seq<byte>, plain: seq<byte>)
    requires Lawful(c) && |iv| == 16
    ensures Decrypt(c, key, iv, Encrypt(c, key, iv, plain)) == Some(plain)
    ensures |Encrypt(c, key, iv, plain)| >= 16
  {
    hide Chain, Unchain, Unpadded, Padding;
    UnpadPadding(plain);
    UnchainChain(c, key, iv, plain + Padding(|plain|));
    ChainLength(c, key, iv, plain + Padding(|plain|));
  }

  // ---- AES-KDF ----

  /** rounds applications of the cipher: what the key derivation of KDBX asks for. */
  function Iterate(c: BlockCipher, key: seq<byte>, block: seq<byte>, rounds: nat): seq<byte> {
    if rounds == 0 then block else c.enc(key, Iterate(c, key, block, rounds - 1))
  }

  lemma {:induction false} IterateLength(c: BlockCipher, key: seq<byte>, block: seq<byte>, rounds: nat)
    requires Lawful(c) && |block| == 16
    ensures |Iterate(c, key, block, rounds)| == 16
  {
    if rounds > 0 {
      IterateLength(c, key, block, rounds - 1);
    }
  }

  lemma {:induction false} IterateFirst(c: BlockCipher, key: seq<byte>, block: seq<byte>, rounds: nat)
    ensures Iterate(c, key, c.enc(key, block), rounds) == Iterate(c, key, block, rounds + 1)
  {
    if rounds > 0 {
      IterateFirst(c, key, block, rounds - 1);
    }
  }

  lemma {:induction false} IterateMore(c: BlockCipher, key: seq<byte>, block: seq<byte>, m: nat, n: nat)
    ensures Iterate(c, key, Iterate(c, key, block, m), n) == Iterate(c, key, block, m + n)
  {
    if n > 0 {
      IterateMore(c, key, block, m, n - 1);
    }
  }

  /** Chaining over n blocks of zeros, whatever follows, leaves the n-fold iteration in the n-th block. */
  lemma {:induction false} ChainOverZeros(c: BlockCipher, key: seq<byte>, iv: seq<byte>, n: nat, tail: seq<byte>)
    requires Lawful(c) && |iv| == 16 && n > 0 && Whole(tail)
    ensures var ct := Chain(c, key, iv, Zeros(16 * n) + tail);
            |ct| == 16 * n + |tail| && ct[16 * (n - 1)..16 * n] == Iterate(c, key, iv, n)
    decreases n
  {
    hide XorBytes;
    var plain := Zeros(16 * n) + tail;
    ChainLength(c, key, iv, plain);
    assert plain[..16] == Zeros(16);
    ZeroXor(iv);
    var x := c.enc(key, iv);
    assert |x| == 16;
    assert plain[16..] == Zeros(16 * (n - 1)) + tail;
    var ct := Chain(c, key, iv, plain);
    var more := Chain(c, key, x, plain[16..]);
    assert ct == x + more;
    if n == 1 {
      assert ct[0..16] == x;
      assert Iterate(c, key, iv, 1) == c.enc(key, Iterate(c, key, iv, 0));
    } else {
      ChainOverZeros(c, key, x, n - 1, tail);
      IterateFirst(c, key, iv, n - 1);
      assert ct[16 * (n - 1)..16 * n] == more[16 * (n - 2)..16 * (n - 1)];
    }
  }

  const CHUNK_BLOCKS: nat := 0x4_0000

  /** One half of the key, by native calls over at most chunk zero blocks each. */
  method AesKdfHalf(c: BlockCipher, key: seq<byte>, half: seq<byte>, rounds: nat, chunk: nat) returns (iv: seq<byte>)
    requires Lawful(c) && |half| == 16 && chunk > 0
    ensures |iv| == 16 && iv == Iterate(c, key, half, rounds)
  {
    hide Chain, Iterate, Padding;
    iv := half;
    var remaining := rounds;
    NoRounds(c, key, half);
    while remaining > 0
      invariant 0 <= remaining <= rounds && |iv| == 16
      invariant iv == Iterate(c, key, half, rounds - remaining)
    {
      var blocks := if remaining < chunk then remaining else chunk;
      var ct := Encrypt(c, key, iv, Zeros(16 * blocks));
      ChainOverZeros(c, key, iv, blocks, Padding(16 * blocks));
      IterateMore(c, key, half, rounds - remaining, blocks);
      iv := ct[16 * (blocks - 1)..16 * blocks];
      remaining := remaining - blocks;
    }
  }

  lemma {:induction false} NoRounds(c: BlockCipher, key: seq<byte>, half: seq<byte>)
    ensures Iterate(c, key, half, 0) == half
  {
  }
}
