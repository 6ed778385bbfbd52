/**
 * Message steganography: encode_image and decode_image of stegnography.py.
 *
 * Encoding writes the 8-bit forms of the message's characters followed by the
 * 16-bit tail 1111111111111110 into the LSBs of the channels, one bit per
 * channel, rows first, then columns, then R, G, B. Bits that do not fit are
 * dropped without an error. Decoding reads every LSB back in the same order,
 * cuts the bits into 8-bit chunks and stops at the first chunk 11111110; it
 * has no error for a missing stop chunk and converts a short final chunk.
 */
module Steganography {
  import opened LsbPlane

  /** The 16-bit tail appended to every message. */
  const Delimiter: seq<Bit> := [1, 1, 1, 1, 1, 1, 1, 1, 1, 1, 1, 1, 1, 1, 1, 0]

  /** The chunk at which decoding stops. */
  const StopChunk: seq<Bit> := [1, 1, 1, 1, 1, 1, 1, 0]

  /** The tail is the 8-bit forms of the characters 255 and 254; the stop chunk is that of 254. */
  lemma DelimiterIsTwoChars()
    ensures Delimiter == CharBits(255) + CharBits(254)
    ensures StopChunk == CharBits(254)
  {
    assert BitsOf(1, 1) == [1];
    assert BitsOf(3, 2) == [1, 1];
    assert BitsOf(7, 3) == [1, 1, 1];
    assert BitsOf(15, 4) == [1, 1, 1, 1];
    assert BitsOf(31, 5) == [1, 1, 1, 1, 1];
    assert BitsOf(63, 6) == [1, 1, 1, 1, 1, 1];
    assert BitsOf(127, 7) == [1, 1, 1, 1, 1, 1, 1];
    assert CharBits(255) == [1, 1, 1, 1, 1, 1, 1, 1];
    assert CharBits(254) == [1, 1, 1, 1, 1, 1, 1, 0];
  }

  /** The stop chunk is the 8-bit form of character 254 and of no other. */
  lemma StopChunkIsOnly254(c: Byte)
    ensures CharBits(c) == StopChunk <==> c == 254
  {
    DelimiterIsTwoChars();
    ValueOfBitsOf(c, 8);
    ValueOfBitsOf(254, 8);
  }

  /**
   * The bit stream encode_image writes: the message's bits, then the tail.
   * Regrouped into characters it is the message followed by 255 and 254.
   */
  function StegoBits(message: seq<Byte>): (r: seq<Bit>)
    ensures |r| == 8 * |message| + 16
    ensures Chunks(r) == message + [255, 254]
  {
    DelimiterIsTwoChars();
    MessageBitsAppend(message, [255, 254]);
    assert MessageBits([255, 254]) == CharBits(255) + MessageBits([254]);
    MessageBitsSingle(254);
    ChunksOfMessageBits(message + [255, 254]);
    MessageBits(message) + Delimiter
  }

  /**
   * The stream holds character k / 8 of the message, most significant bit
   * first, at bit k, followed by exactly fifteen 1s and one 0.
   */
  lemma StegoBitsAt(message: seq<Byte>, k: nat)
    requires k < |StegoBits(message)|
    ensures |StegoBits(message)| == 8 * |message| + 16
    ensures k < 8 * |message| ==> StegoBits(message)[k] == message[k / 8] / Pow2(7 - k % 8) % 2
    ensures 8 * |message| <= k < 8 * |message| + 15 ==> StegoBits(message)[k] == 1
    ensures k == 8 * |message| + 15 ==> StegoBits(message)[k] == 0
  {
    if k < 8 * |message| {
      MessageBitAt(message, k);
    }
  }

  /**
   * The write loop of encode_image on a w-by-h image: the channels of a copy
   * are visited row by row, column by column, R, G, B, and while bits remain
   * each visited channel takes the next bit as its LSB. Bits beyond the last
   * channel are dropped.
   */
  method WriteLsbs(w: nat, h: nat, image: seq<Byte>, binaryMessage: seq<Bit>) returns (encoded: seq<Byte>)
    requires |image| == ChannelCount(w, h)
    ensures encoded == EmbedBits(image, binaryMessage)
  {
    var pixels := new Byte[|image|](k requires 0 <= k < |image| => image[k]);
    var dataIndex := 0;
    var y := 0;
    while y < h
      invariant 0 <= y <= h
      invariant ChannelIndex(w, 0, y, 0) <= |image|
      invariant dataIndex == Min(ChannelIndex(w, 0, y, 0), |binaryMessage|)
      invariant forall k :: 0 <= k < ChannelIndex(w, 0, y, 0) ==> pixels[k] == EmbedBits(image, binaryMessage)[k]
      invariant forall k :: ChannelIndex(w, 0, y, 0) <= k < |image| ==> pixels[k] == image[k]
    {
      var x := 0;
      while x < w
        invariant 0 <= x <= w
        invariant ChannelIndex(w, x, y, 0) <= |image|
        invariant dataIndex == Min(ChannelIndex(w, x, y, 0), |binaryMessage|)
        invariant forall k :: 0 <= k < ChannelIndex(w, x, y, 0) ==> pixels[k] == EmbedBits(image, binaryMessage)[k]
        invariant forall k :: ChannelIndex(w, x, y, 0) <= k < |image| ==> pixels[k] == image[k]
      {
        ChannelIndexInRange(w, h, x, y, 2);
        if dataIndex < |binaryMessage| {
          // The source copies pixels[x, y] into a list, updates it and stores it
          // back; the channels are updated in place here.
          var i := 0;
          while i < 3
            invariant 0 <= i <= 3
            invariant dataIndex == Min(ChannelIndex(w, x, y, i), |binaryMessage|)
            invariant forall k :: 0 <= k < ChannelIndex(w, x, y, i) ==> pixels[k] == EmbedBits(image, binaryMessage)[k]
            invariant forall k :: ChannelIndex(w, x, y, i) <= k < |image| ==> pixels[k] == image[k]
          {
            if dataIndex < |binaryMessage| {
              var k := ChannelIndex(w, x, y, i);
              pixels[k] := SetLsb(pixels[k], binaryMessage[dataIndex]);
              dataIndex := dataIndex + 1;
            }
            i := i + 1;
          }
        }
        ChannelIndexNext(w, x, y);
        x := x + 1;
      }
      ChannelIndexNext(w, w, y);
      RowStartMonotonic(w, y + 1, h);
      y := y + 1;
    }
    encoded := pixels[..];
  }

  /**
   * encode_image: build the message's bit stream with its tail and write it
   * into the LSBs of a copy of the image.
   */
  method EncodeImage(w: nat, h: nat, image: seq<Byte>, message: seq<Byte>) returns (encoded: seq<Byte>)
    requires |image| == ChannelCount(w, h)
    ensures encoded == EmbedBits(image, StegoBits(message))
    ensures |encoded| == |image|
    ensures forall k :: 0 <= k < |image| ==> encoded[k] / 2 == image[k] / 2 && -1 <= encoded[k] as int - image[k] as int <= 1
    ensures forall k :: 0 <= k < |image| && k < |StegoBits(message)| ==> encoded[k] % 2 == StegoBits(message)[k]
    ensures forall k :: |StegoBits(message)| <= k < |image| ==> encoded[k] == image[k]
  {
    var binaryMessage := StegoBits(message);
    encoded := WriteLsbs(w, h, image, binaryMessage);
  }

  /**
   * The chunk-and-stop loop of decode_image over a bit string: one character
   * per 8-bit chunk, until the first chunk equal to StopChunk.
   */
  function DecodeBits(bits: seq<Bit>): (r: seq<Byte>)
    ensures |r| <= (|bits| + 7) / 8
    decreases |bits|
  {
    if bits == [] then []
    else
      var n := Min(8, |bits|);
      if bits[..n] == StopChunk then [] else [ChunkToChar(bits[..n])] + DecodeBits(bits[n..])
  }

  /** One step of the chunk loop, taken at bit i. */
  lemma DecodeBitsFrom(bits: seq<Bit>, i: nat)
    requires i < |bits|
    ensures var byte := bits[i..Min(i + 8, |bits|)];
      DecodeBits(bits[i..]) ==
        if byte == StopChunk then [] else [ChunkToChar(byte)] + DecodeBits(bits[Min(i + 8, |bits|)..])
  {
    assert bits[i..][..Min(8, |bits| - i)] == bits[i..Min(i + 8, |bits|)];
    assert bits[i..][Min(8, |bits| - i)..] == bits[Min(i + 8, |bits|)..];
  }

  /**
   * The read loop of decode_image: the LSB of every channel, visited row by
   * row, column by column, R, G, B.
   */
  method ReadLsbs(w: nat, h: nat, image: seq<Byte>) returns (binaryMessage: seq<Bit>)
    requires |image| == ChannelCount(w, h)
    ensures binaryMessage == Lsbs(image)
  {
    binaryMessage := [];
    var y := 0;
    while y < h
      invariant 0 <= y <= h
      invariant |binaryMessage| == ChannelIndex(w, 0, y, 0) <= |image|
      invariant forall k :: 0 <= k < |binaryMessage| ==> binaryMessage[k] == image[k] % 2
    {
      var x := 0;
      while x < w
        invariant 0 <= x <= w
        invariant |binaryMessage| == ChannelIndex(w, x, y, 0) <= |image|
        invariant forall k :: 0 <= k < |binaryMessage| ==> binaryMessage[k] == image[k] % 2
      {
        ChannelIndexInRange(w, h, x, y, 2);
        var i := 0;
        while i < 3
          invariant 0 <= i <= 3
          invariant |binaryMessage| == ChannelIndex(w, x, y, i) < |image| + 1
          invariant forall k :: 0 <= k < |binaryMessage| ==> binaryMessage[k] == image[k] % 2
        {
          binaryMessage := binaryMessage + [image[ChannelIndex(w, x, y, i)] % 2];
          i := i + 1;
        }
        ChannelIndexNext(w, x, y);
        x := x + 1;
      }
      ChannelIndexNext(w, w, y);
      RowStartMonotonic(w, y + 1, h);
      y := y + 1;
    }
  }

  /**
   * decode_image on a w-by-h image: collect the LSB of every channel in the
   * encoding order, then convert chunk after chunk until the stop chunk.
   */
  method DecodeImage(w: nat, h: nat, image: seq<Byte>) returns (message: seq<Byte>)
    requires |image| == ChannelCount(w, h)
    ensures message == DecodeBits(Lsbs(image))
  {
    var binaryMessage := ReadLsbs(w, h, image);
    message := DecodeChunks(binaryMessage);
  }

  /**
   * The chunk loop of decode_image: take the bits eight at a time, the last
   * chunk possibly shorter, and append each chunk's character until the stop
   * chunk.
   */
  method DecodeChunks(binaryMessage: seq<Bit>) returns (message: seq<Byte>)
    ensures message == DecodeBits(binaryMessage)
  {
    message := [];
    var i := 0;
    while i < |binaryMessage|
      invariant 0 <= i
      invariant message + DecodeBits(binaryMessage[Min(i, |binaryMessage|)..]) == DecodeBits(binaryMessage)
      decreases |binaryMessage| - i
    {
      var end := Min(i + 8, |binaryMessage|);
      var byte := binaryMessage[i..end];
      if byte == StopChunk {
        DecodeBitsFrom(binaryMessage, i);
        break;
      }
      DecodeChunksStep(binaryMessage, i, message);
      message := message + [ChunkToChar(byte)];
      i := i + 8;
    }
  }

  /** One pass of the chunk loop that does not stop keeps its invariant. */
  lemma DecodeChunksStep(bits: seq<Bit>, i: nat, message: seq<Byte>)
    requires i < |bits| && bits[i..Min(i + 8, |bits|)] != StopChunk
    ensures message + [ChunkToChar(bits[i..Min(i + 8, |bits|)])] + DecodeBits(bits[Min(i + 8, |bits|)..]) ==
      message + DecodeBits(bits[i..])
  {
    DecodeBitsFrom(bits, i);
    SeqAssoc(message, [ChunkToChar(bits[i..Min(i + 8, |bits|)])], DecodeBits(bits[Min(i + 8, |bits|)..]));
  }

  // ---------------------------------------------------------------------------
  // What decoding returns
  // ---------------------------------------------------------------------------

  /** Without a stop chunk, decoding returns every chunk, a short final one included. */
  lemma {:induction false} DecodeWithoutStop(bits: seq<Bit>)
    requires forall j: nat :: 8 * j < |bits| ==> Chunk(bits, j) != StopChunk
    ensures DecodeBits(bits) == Chunks(bits)
    decreases |bits|
  {
    if bits != [] {
      assert bits[..Min(8, |bits|)] == Chunk(bits, 0);
      if |bits| > 8 {
        forall j: nat | 8 * j < |bits[8..]|
          ensures Chunk(bits[8..], j) != StopChunk
        {
          ChunkShift(bits, j);
        }
        DecodeWithoutStop(bits[8..]);
      }
    }
  }

  /**
   * Decoding stops at the first stop chunk: it returns exactly the chunks
   * before it, whatever follows.
   */
  lemma {:induction false} DecodeStopsAtFirst(bits: seq<Bit>, j: nat)
    requires 8 * j < |bits| && Chunk(bits, j) == StopChunk
    requires forall i :: 0 <= i < j ==> Chunk(bits, i) != StopChunk
    ensures DecodeBits(bits) == Chunks(bits[..8 * j])
    decreases j
  {
    if j == 0 {
      assert bits[..Min(8, |bits|)] == Chunk(bits, 0);
    } else {
      assert bits[..8] == Chunk(bits, 0);
      ChunkShift(bits, j - 1);
      forall i | 0 <= i < j - 1
        ensures Chunk(bits[8..], i) != StopChunk
      {
        ChunkShift(bits, i);
      }
      DecodeStopsAtFirst(bits[8..], j - 1);
      ChunksOfPrefixStep(bits, j);
    }
  }

  /** The chunks of the first j chunks' bits: the first chunk, then the next j - 1. */
  lemma ChunksOfPrefixStep(bits: seq<Bit>, j: nat)
    requires 0 < j && 8 * j <= |bits|
    ensures Chunks(bits[..8 * j]) == [ChunkToChar(bits[..8])] + Chunks(bits[8..][..8 * (j - 1)])
  {
    var p := bits[..8 * j];
    assert p[..8] == bits[..8];
    assert p[8..] == bits[8..][..8 * (j - 1)];
  }

  /** A character other than 254 decodes to itself, and decoding goes on after it. */
  lemma DecodeCharThen(c: Byte, rest: seq<Bit>)
    requires c != 254
    ensures DecodeBits(CharBits(c) + rest) == [c] + DecodeBits(rest)
  {
    var bits := CharBits(c) + rest;
    assert bits[..8] == CharBits(c);
    assert bits[8..] == rest;
    StopChunkIsOnly254(c);
    ValueOfBitsOf(c, 8);
  }

  /** Decoding ends at the 8-bit form of 254, whatever follows. */
  lemma DecodeStopThen(rest: seq<Bit>)
    ensures DecodeBits(CharBits(254) + rest) == []
  {
    StopChunkIsOnly254(254);
    assert (CharBits(254) + rest)[..8] == CharBits(254);
  }

  /** The bits of a message without character 254 decode to that message and then go on. */
  lemma {:induction false} DecodeMessagePrefix(m: seq<Byte>, tail: seq<Bit>)
    requires forall i :: 0 <= i < |m| ==> m[i] != 254
    ensures DecodeBits(MessageBits(m) + tail) == m + DecodeBits(tail)
  {
    if m != [] {
      var rest := MessageBits(m[1..]) + tail;
      StreamCons(m, tail);
      DecodeCharThen(m[0], rest);
      DecodeMessagePrefix(m[1..], tail);
      SeqAssoc([m[0]], m[1..], DecodeBits(tail));
      assert m == [m[0]] + m[1..];
    } else {
      assert MessageBits(m) + tail == tail;
    }
  }

  /**
   * Round trip: when the stream fits and the message has no character 254,
   * decoding the encoded image gives the message followed by character 255,
   * the first byte of the tail, which is not the stop chunk.
   */
  lemma StegoRoundTrip(image: seq<Byte>, message: seq<Byte>)
    requires 8 * |message| + 16 <= |image|
    requires forall i :: 0 <= i < |message| ==> message[i] != 254
    ensures DecodeBits(Lsbs(EmbedBits(image, StegoBits(message)))) == message + [255]
  {
    var s := StegoBits(message);
    var l := Lsbs(EmbedBits(image, s));
    LsbsOfEmbedBits(image, s, |s|);
    assert s[..|s|] == s;
    StegoBitsAsChars(message);
    DecodeStopsAfter(l, message + [255]);
  }

  /**
   * Bits that start with the bits of a message without character 254 and then
   * the form of 254 decode to that message, whatever follows.
   */
  lemma DecodeStopsAfter(bits: seq<Bit>, m: seq<Byte>)
    requires 8 * |m| + 8 <= |bits|
    requires bits[..8 * |m| + 8] == MessageBits(m) + CharBits(254)
    requires forall i :: 0 <= i < |m| ==> m[i] != 254
    ensures DecodeBits(bits) == m
  {
    var n := 8 * |m| + 8;
    var rest := bits[n..];
    SplitAt(bits, n);
    SeqAssoc(MessageBits(m), CharBits(254), rest);
    DecodeMessagePrefix(m, CharBits(254) + rest);
    DecodeStopThen(rest);
    assert m + [] == m;
  }

  /** The stream is the bits of the message followed by 255, then the form of 254. */
  lemma StegoBitsAsChars(message: seq<Byte>)
    ensures StegoBits(message) == MessageBits(message + [255]) + CharBits(254)
  {
    DelimiterIsTwoChars();
    MessageBitsAppend(message, [255]);
    MessageBitsSingle(255);
    SeqAssoc(MessageBits(message), CharBits(255), CharBits(254));
  }

  /** The stream through character j is the bits of the first j + 1 characters. */
  lemma StegoBitsThrough(message: seq<Byte>, j: nat)
    requires j < |message|
    ensures StegoBits(message)[..8 * j + 8] == MessageBits(message[..j]) + CharBits(message[j])
  {
    assert message == message[..j] + message[j..];
    MessageBitsAppend(message[..j], message[j..]);
    MessageBitsChunk(message[j..], 0);
  }

  /**
   * A message with character 254 is cut at its first one: decoding returns
   * only the characters before it.
   */
  lemma StegoStopsAt254(image: seq<Byte>, message: seq<Byte>, j: nat)
    requires j < |message| && message[j] == 254
    requires forall i :: 0 <= i < j ==> message[i] != 254
    requires 8 * j + 8 <= |image|
    ensures DecodeBits(Lsbs(EmbedBits(image, StegoBits(message)))) == message[..j]
  {
    var s := StegoBits(message);
    var l := Lsbs(EmbedBits(image, s));
    LsbsOfEmbedBits(image, s, 8 * j + 8);
    StegoBitsThrough(message, j);
    DecodeStopsAfter(l, message[..j]);
  }

  // ---------------------------------------------------------------------------
  // The trailing character 255
  // ---------------------------------------------------------------------------

  /**
   * The two-character payload "Hi" in an image with room for its 32-bit
   * stream: decode_image returns "Hi" followed by character 255, because
   * the first byte of the tail is not the stop chunk.
   */
  lemma HiDecodesWithTrailing255(image: seq<Byte>)
    requires |image| >= 32
    ensures DecodeBits(Lsbs(EmbedBits(image, StegoBits([72, 105])))) == [72, 105, 255]
    ensures DecodeBits(Lsbs(EmbedBits(image, StegoBits([72, 105])))) != [72, 105]
  {
    StegoRoundTrip(image, [72, 105]);
  }

  /**
   * Decoding that stops where the whole 16-bit tail begins, at a chunk
   * boundary, instead of at its second byte alone.
   */
  function DecodeToDelimiter(bits: seq<Bit>): (r: seq<Byte>)
    ensures |r| <= (|bits| + 7) / 8
    decreases |bits|
  {
    if bits == [] then []
    else if |bits| >= 16 && bits[..16] == Delimiter then []
    else
      var n := Min(8, |bits|);
      [ChunkToChar(bits[..n])] + DecodeToDelimiter(bits[n..])
  }

  /** Two characters are determined by their concatenated 8-bit forms. */
  lemma CharPairInjective(a: Byte, b: Byte, c: Byte, d: Byte)
    ensures CharBits(a) + CharBits(b) == CharBits(c) + CharBits(d) ==> a == c && b == d
  {
    var x := CharBits(a) + CharBits(b);
    var y := CharBits(c) + CharBits(d);
    assert x[..8] == CharBits(a) && x[8..] == CharBits(b);
    assert y[..8] == CharBits(c) && y[8..] == CharBits(d);
    ValueOfBitsOf(a, 8);
    ValueOfBitsOf(b, 8);
    ValueOfBitsOf(c, 8);
    ValueOfBitsOf(d, 8);
  }

  /**
   * A character followed by one that does not complete the tail with it is
   * decoded on its own, and decoding goes on after it.
   */
  lemma DecodeCharBeforeDelimiter(c: Byte, next: Byte, rest: seq<Bit>)
    requires |rest| >= 8 && rest[..8] == CharBits(next)
    requires !(c == 255 && next == 254)
    ensures DecodeToDelimiter(CharBits(c) + rest) == [c] + DecodeToDelimiter(rest)
  {
    var bits := CharBits(c) + rest;
    TwoCharsAhead(CharBits(c), rest);
    DelimiterIsTwoChars();
    CharPairInjective(c, next, 255, 254);
    SplitAppend(CharBits(c), rest);
    CharBitsValue(c);
    ChunkToCharIsBelow(CharBits(c));
  }

  /** The first 16 bits of an 8-bit chunk followed by a stream of at least 8 bits. */
  lemma TwoCharsAhead(a: seq<Bit>, rest: seq<Bit>)
    requires |a| == 8 && |rest| >= 8
    ensures (a + rest)[..16] == a + rest[..8]
  {
    assert |(a + rest)[..16]| == |a + rest[..8]|;
  }

  /**
   * The stream of a non-empty message followed by u starts with the form of
   * its first character, followed by the next character's form or by u.
   */
  lemma StreamAfterFirst(m: seq<Byte>, u: seq<Bit>)
    requires |m| > 0 && |u| >= 8
    ensures MessageBits(m) + u == CharBits(m[0]) + (MessageBits(m[1..]) + u)
    ensures |m| > 1 ==> (MessageBits(m[1..]) + u)[..8] == CharBits(m[1])
    ensures |m| == 1 ==> MessageBits(m[1..]) + u == u
  {
    StreamCons(m, u);
    if |m| > 1 {
      StreamStart(m[1..], u);
    } else {
      StreamOfLast(m, u);
    }
  }

  lemma StreamCons(m: seq<Byte>, u: seq<Bit>)
    requires |m| > 0
    ensures MessageBits(m) + u == CharBits(m[0]) + (MessageBits(m[1..]) + u)
  {
    var a, b := CharBits(m[0]), MessageBits(m[1..]);
    assert MessageBits(m) == a + b;
    SeqAssoc(a, b, u);
  }

  lemma StreamStart(m: seq<Byte>, u: seq<Bit>)
    requires |m| > 0 && |u| >= 8
    ensures (MessageBits(m) + u)[..8] == CharBits(m[0])
  {
    MessageBitsChunk(m, 0);
    PrefixOfAppend(MessageBits(m), u, 8);
  }

  lemma StreamOfLast(m: seq<Byte>, u: seq<Bit>)
    requires |m| == 1
    ensures MessageBits(m[1..]) + u == u
  {
    assert m[1..] == [];
  }

  /** Whatever follows it, the tail starts with the form of 255. */
  lemma DelimiterStart(tail: seq<Bit>)
    ensures (Delimiter + tail)[..8] == CharBits(255)
  {
    DelimiterIsTwoChars();
    assert (Delimiter + tail)[..8] == Delimiter[..8];
  }

  /**
   * A message in which 255 is never directly followed by 254, written with
   * the tail, decodes to itself up to the tail, whatever follows.
   */
  lemma {:induction false} DelimiterMessagePrefix(m: seq<Byte>, tail: seq<Bit>)
    requires forall i :: 0 <= i < |m| - 1 ==> !(m[i] == 255 && m[i + 1] == 254)
    ensures DecodeToDelimiter(MessageBits(m) + Delimiter + tail) == m
  {
    if m == [] {
      assert MessageBits(m) + Delimiter == Delimiter;
      SplitAppend(Delimiter, tail);
    } else {
      var m' := m[1..];
      var u := Delimiter + tail;
      var rest := MessageBits(m') + u;
      SeqAssoc(MessageBits(m), Delimiter, tail);
      SeqAssoc(MessageBits(m'), Delimiter, tail);
      DelimiterStart(tail);
      StreamAfterFirst(m, u);
      if |m| > 1 {
        DecodeCharBeforeDelimiter(m[0], m[1], rest);
      } else {
        DecodeCharBeforeDelimiter(m[0], 255, rest);
      }
      NoTailPairAfterFirst(m);
      DelimiterMessagePrefix(m', tail);
      HeadTail(m);
    }
  }

  /** A message without 255 directly followed by 254 keeps that property without its first character. */
  lemma NoTailPairAfterFirst(m: seq<Byte>)
    requires |m| > 0
    requires forall i :: 0 <= i < |m| - 1 ==> !(m[i] == 255 && m[i + 1] == 254)
    ensures forall i :: 0 <= i < |m[1..]| - 1 ==> !(m[1..][i] == 255 && m[1..][i + 1] == 254)
  {
    forall i | 0 <= i < |m[1..]| - 1
      ensures !(m[1..][i] == 255 && m[1..][i + 1] == 254)
    {
      assert m[1..][i] == m[i + 1] && m[1..][i + 1] == m[i + 2];
    }
  }

  /**
   * Round trip of the stop-at-tail decoding: when the stream fits and 255 is
   * never directly followed by 254, the encoded image decodes to the message.
   */
  lemma DelimiterRoundTrip(image: seq<Byte>, message: seq<Byte>)
    requires 8 * |message| + 16 <= |image|
    requires forall i :: 0 <= i < |message| - 1 ==> !(message[i] == 255 && message[i + 1] == 254)
    ensures DecodeToDelimiter(Lsbs(EmbedBits(image, StegoBits(message)))) == message
  {
    var s := StegoBits(message);
    var l := Lsbs(EmbedBits(image, s));
    LsbsOfEmbedBits(image, s, |s|);
    assert s[..|s|] == s;
    SplitAt(l, |s|);
    DelimiterMessagePrefix(message, l[|s|..]);
  }
}
