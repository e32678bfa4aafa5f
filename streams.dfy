/** The output side of the transport as the request writer sees it: a stream
    that buffers written bytes, encodes text with its own encoding, and can
    reserve a block of bytes now and fill it in later. Only what the writer
    relies on is modelled; flushing to the socket is not. */
module Streams {
  import opened Basics

  /** Text as a stream encoding writes it, char by char. */
  function Encode(encoding: char -> seq<byte>, s: string): seq<byte> {
    if s == [] then [] else Encode(encoding, s[..|s| - 1]) + encoding(s[|s| - 1])
  }

  /** The encoding writes every ASCII char as that one byte, as UTF-8 does. */
  ghost predicate AsciiCompatible(encoding: char -> seq<byte>) {
    forall c: char :: c as int < 128 ==> encoding(c) == [c as int as byte]
  }

  /** Writing two strings one after the other writes the bytes of their
      concatenation. */
  lemma {:induction false} EncodeAppend(encoding: char -> seq<byte>, a: string, b: string)
    ensures Encode(encoding, a + b) == Encode(encoding, a) + Encode(encoding, b)
  {
    if b == [] {
      assert a + b == a;
    } else {
      var b' := b[..|b| - 1];
      assert (a + b)[..|a + b| - 1] == a + b';
      assert (a + b)[|a + b| - 1] == b[|b| - 1];
      EncodeAppend(encoding, a, b');
    }
  }

  /** Under an ASCII-compatible encoding, ASCII text is written as by
      `Encoding.ASCII`, one byte per char. */
  lemma {:induction false} EncodeAscii(encoding: char -> seq<byte>, s: string)
    requires AsciiCompatible(encoding) && IsAscii(s)
    ensures Encode(encoding, s) == Ascii(s)
  {
    if s != [] {
      var s' := s[..|s| - 1];
      EncodeAscii(encoding, s');
      assert Ascii(s) == Ascii(s') + [AsciiByte(s[|s| - 1])];
    }
  }

  /** A reserved range of the stream, `MemoryBlockCollection` in the source. */
  datatype Block = Block(start: nat, size: nat)

  /** The bytes a fresh reservation holds until it is filled in. */
  function Reserved(size: nat): (bs: seq<byte>)
    ensures |bs| == size
  {
    seq(size, _ => 0)
  }

  /** A block reserved between two runs of bytes can be cut out again. */
  lemma FillReserved(before: seq<byte>, size: nat, after: seq<byte>)
    ensures (before + Reserved(size) + after)[..|before|] == before
    ensures (before + Reserved(size) + after)[|before| + size..] == after
  {
  }

  class PipeStream {
    /** The stream's text encoding (`PipeStream.Encoding`). */
    const encoding: char -> seq<byte>
    /** Everything written so far; its length is `CacheLength`. */
    var cache: seq<byte>

    constructor (encoding: char -> seq<byte>)
      ensures this.encoding == encoding && cache == []
    {
      this.encoding := encoding;
      cache := [];
    }

    function CacheLength(): nat
      reads this
    {
      |cache|
    }

    method Write(bytes: seq<byte>)
      modifies this
      ensures cache == old(cache) + bytes
    {
      cache := cache + bytes;
    }

    method WriteText(s: string)
      modifies this
      ensures cache == old(cache) + Encode(encoding, s)
    {
      cache := cache + Encode(encoding, s);
    }

    /** Reserves `size` bytes at the current end of the stream. */
    method Allocate(size: nat) returns (block: Block)
      modifies this
      ensures block == Block(|old(cache)|, size)
      ensures cache == old(cache) + Reserved(size)
    {
      block := Block(|cache|, size);
      cache := cache + Reserved(size);
    }

    /** Fills a reserved block with the encoded text, in place: the bytes
        before and after the block are left as they are. */
    method Full(block: Block, text: string)
      requires block.start + block.size <= |cache|
      requires |Encode(encoding, text)| == block.size
      modifies this
      ensures |cache| == |old(cache)|
      ensures cache == old(cache)[..block.start] + Encode(encoding, text)
                       + old(cache)[block.start + block.size..]
    {
      cache := cache[..block.start] + Encode(encoding, text) + cache[block.start + block.size..];
    }
  }
}
