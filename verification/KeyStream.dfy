/**
 * The ChaCha20 stream that protects values (chachaStream of web/export.js), as a function of the position.
 */
module KeyStream {
  import opened Bits
  import opened JsInt
  import opened KdbxContainer
  import Cbc

  /** The platform's block function, with the key and the nonce of one file. */
  datatype Stream = Stream(p: Platform, key: seq<byte>, nonce: seq<byte>)

  ghost predicate Usable(s: Stream) {
    forall k, n, c :: |s.p.chacha(k, n, c)| == 64
  }

  /** Block number n; the counter is a 32-bit word. */
  function Block(s: Stream, n: nat): (r: seq<byte>)
    ensures Usable(s) ==> |r| == 64
  {
    s.p.chacha(s.key, n % W32, s.nonce)
  }

  function KeyByte(s: Stream, j: nat): byte
    requires Usable(s)
  {
    Block(s, j / 64)[j % 64]
  }

  /** data under the stream from position from on. */
  function XorAt(s: Stream, from: nat, data: seq<byte>): (r: seq<byte>)
    requires Usable(s)
    ensures |r| == |data|
  {
    seq(|data|, i requires 0 <= i < |data| => XorByte(data[i], KeyByte(s, from + i)))
  }

  /** The same stretch of the stream, applied twice, changes nothing. */
  lemma XorAtTwice(s: Stream, from: nat, data: seq<byte>)
    requires Usable(s)
    ensures XorAt(s, from, XorAt(s, from, data)) == data
  {
    hide XorByte, KeyByte;
    forall i | 0 <= i < |data| ensures XorAt(s, from, XorAt(s, from, data))[i] == data[i] {
      Cbc.XorByteCancel(data[i], KeyByte(s, from + i));
    }
  }

  class ChaChaStream {
    const s: Stream
    var counter: nat
    var block: seq<byte>
    var pos: nat

    constructor (s: Stream)
      requires Usable(s)
      ensures this.s == s && Valid() && Used() == 0
    {
      this.s, counter, block, pos := s, 0, [], 64;
    }

    ghost predicate Valid()
      reads this
    {
      && Usable(s) && pos <= 64
      && (if counter == 0 then pos == 64 else block == Block(s, counter - 1))
    }

    /** How many bytes of the stream have been used. */
    ghost function Used(): nat
      requires Valid()
      reads this
    {
      if counter == 0 then 0 else 64 * (counter - 1) + pos
    }

    method Xor(data: seq<byte>) returns (out: seq<byte>)
      requires Valid()
      modifies this
      ensures Valid() && Used() == old(Used()) + |data|
      ensures out == XorAt(s, old(Used()), data)
    {
      hide Block, XorByte, Usable;
      out := [];
      for i := 0 to |data|
        invariant Valid() && Used() == old(Used()) + i && |out| == i
        invariant forall k :: 0 <= k < i ==> out[k] == XorByte(data[k], KeyByte(s, old(Used()) + k))
      {
        if pos == 64 {
          block := Block(s, counter);
          counter := counter + 1;
          pos := 0;
        }
        Position(counter - 1, pos);
        BlockLength(s, counter - 1);
        out := out + [XorByte(data[i], block[pos])];
        pos := pos + 1;
      }
    }
  }

  lemma Position(n: nat, pos: nat)
    requires pos < 64
    ensures (64 * n + pos) / 64 == n && (64 * n + pos) % 64 == pos
  {
  }

  lemma BlockLength(s: Stream, n: nat)
    requires Usable(s)
    ensures |Block(s, n)| == 64
  {
  }
}
