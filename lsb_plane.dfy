/**
 * The bit-plane substrate shared by message steganography, the invisible
 * watermark and the LSB steganalysis.
 *
 * An RGB image of width w and height h is a flat sequence of 3*w*h channel
 * values: channel c (0 = R, 1 = G, 2 = B) of the pixel in column x of row y
 * sits at index 3*(y*w + x) + c. Characters are values below 256 and are
 * written as 8 bits, most significant bit first, zero-padded on the left.
 */
module LsbPlane {

  /** A channel value or a character. */
  type Byte = b: int | 0 <= b < 256

  type Bit = b: int | 0 <= b < 2

  function Min(a: int, b: int): int { if a < b then a else b }

  function Pow2(n: nat): (r: nat)
    ensures r > 0
  {
    if n == 0 then 1 else 2 * Pow2(n - 1)
  }

  lemma {:induction false} Pow2Monotonic(a: nat, b: nat)
    requires a <= b
    ensures Pow2(a) <= Pow2(b)
  {
    if a < b { Pow2Monotonic(a, b - 1); }
  }

  // ---------------------------------------------------------------------------
  // Channel addressing
  // ---------------------------------------------------------------------------

  /**
   * Index of the first pixel of row y of a w-wide image, y * w, written as a
   * sum so that the traversal proofs stay linear.
   */
  function RowStart(w: nat, y: nat): (r: nat)
  {
    if y == 0 then 0 else RowStart(w, y - 1) + w
  }

  lemma {:induction false} RowStartIsProduct(w: nat, y: nat)
    ensures RowStart(w, y) == y * w
  {
    if y > 0 {
      RowStartIsProduct(w, y - 1);
      assert y * w == (y - 1) * w + w;
    }
  }

  /** Flat index of channel c of the pixel in column x of row y of a w-wide image. */
  function ChannelIndex(w: nat, x: nat, y: nat, c: nat): nat
  {
    3 * (RowStart(w, y) + x) + c
  }

  /** The index is 3*(y*w + x) + c. */
  lemma ChannelIndexFormula(w: nat, x: nat, y: nat, c: nat)
    ensures ChannelIndex(w, x, y, c) == 3 * (y * w + x) + c
  {
    RowStartIsProduct(w, y);
  }

  /** Visiting R, G, B, then the next column, then the next row advances the index by one. */
  lemma ChannelIndexNext(w: nat, x: nat, y: nat)
    ensures ChannelIndex(w, x, y, 3) == ChannelIndex(w, x + 1, y, 0)
    ensures ChannelIndex(w, w, y, 0) == ChannelIndex(w, 0, y + 1, 0)
  {
  }

  /** The number of channel values of a w-by-h RGB image. */
  function ChannelCount(w: nat, h: nat): nat
  {
    ChannelIndex(w, 0, h, 0)
  }

  /** The channel count is 3*w*h, one past the index of the last channel. */
  lemma ChannelCountIsProduct(w: nat, h: nat)
    ensures ChannelCount(w, h) == 3 * w * h
  {
    RowStartIsProduct(w, h);
    assert h * w == w * h;
  }

  lemma {:induction false} RowStartMonotonic(w: nat, y: nat, h: nat)
    requires y <= h
    ensures RowStart(w, y) <= RowStart(w, h)
  {
    if y < h { RowStartMonotonic(w, y, h - 1); }
  }

  /** Every channel of a w-by-h image lies before the channel count. */
  lemma ChannelIndexInRange(w: nat, h: nat, x: nat, y: nat, c: nat)
    requires x < w && y < h && c < 3
    ensures ChannelIndex(w, x, y, c) < ChannelCount(w, h)
  {
    RowStartMonotonic(w, y + 1, h);
  }

  /**
   * Every index k < 3*w*h is reached: it is channel k % 3 of the pixel in
   * column (k / 3) % w of row (k / 3) / w.
   */
  lemma ChannelIndexInverse(w: nat, h: nat, k: nat)
    requires k < 3 * w * h
    ensures w > 0 && (k / 3) / w < h
    ensures ChannelIndex(w, (k / 3) % w, (k / 3) / w, k % 3) == k
  {
    var p := k / 3;
    PixelOfChannel(w, h, k);
    RowOfPixel(w, h, p);
    ChannelIndexFormula(w, p % w, p / w, k % 3);
    assert (p / w) * w + p % w == p;
  }

  /** Channel k < 3*w*h belongs to pixel k / 3 < w*h, so the image has columns. */
  lemma PixelOfChannel(w: nat, h: nat, k: nat)
    requires k < 3 * w * h
    ensures w > 0 && k / 3 < w * h
  {
    assert 3 * w * h == 3 * (w * h);
  }

  /** Pixel p < w*h lies in a row below h. */
  lemma RowOfPixel(w: nat, h: nat, p: nat)
    requires w > 0 && p < w * h
    ensures p / w < h
  {
    assert (p / w) * w <= p;
    assert (h - p / w) * w > 0;
  }

  /**
   * No other channel reaches the same index: together with
   * ChannelIndexInverse, the addressing is a bijection between the channels
   * of a w-by-h image and the indices below 3*w*h.
   */
  lemma ChannelIndexUnique(w: nat, h: nat, x: nat, y: nat, c: nat, k: nat)
    requires x < w && y < h && c < 3 && ChannelIndex(w, x, y, c) == k
    ensures x == (k / 3) % w && y == (k / 3) / w && c == k % 3
  {
    ChannelIndexFormula(w, x, y, c);
    DivUnique(k, 3, y * w + x, c);
    DivUnique(y * w + x, w, y, x);
  }

  // ---------------------------------------------------------------------------
  // Bits of a value, most significant first
  // ---------------------------------------------------------------------------

  /** The n low bits of v, most significant first, zero-padded to width n. */
  function BitsOf(v: nat, n: nat): (r: seq<Bit>)
    ensures |r| == n
  {
    if n == 0 then [] else BitsOf(v / 2, n - 1) + [v % 2]
  }

  /** The number a bit string denotes in base 2, most significant bit first. */
  function Value(bits: seq<Bit>): (r: nat)
    ensures r < Pow2(|bits|)
  {
    if bits == [] then 0 else 2 * Value(bits[..|bits| - 1]) + bits[|bits| - 1]
  }

  lemma {:induction false} ValueOfBitsOf(v: nat, n: nat)
    requires v < Pow2(n)
    ensures Value(BitsOf(v, n)) == v
  {
    if n > 0 {
      var front := BitsOf(v / 2, n - 1);
      assert BitsOf(v, n) == front + [v % 2];
      assert v / 2 < Pow2(n - 1);
      ValueOfBitsOf(v / 2, n - 1);
      ValueAppend(front, v % 2);
    }
  }

  /** Appending bit b doubles the value and adds b. */
  lemma ValueAppend(bits: seq<Bit>, b: Bit)
    ensures Value(bits + [b]) == 2 * Value(bits) + b
  {
    assert (bits + [b])[..|bits|] == bits;
  }

  lemma {:induction false} BitsOfValue(bits: seq<Bit>)
    ensures BitsOf(Value(bits), |bits|) == bits
  {
    if bits != [] {
      var n := |bits|;
      var v := Value(bits);
      assert v / 2 == Value(bits[..n - 1]) && v % 2 == bits[n - 1];
      BitsOfValue(bits[..n - 1]);
      assert bits == bits[..n - 1] + [bits[n - 1]];
    }
  }

  /** A multiple of d strictly between -d and d is 0. */
  lemma MultipleBetween(x: int, d: int)
    requires d > 0 && -d < x * d < d
    ensures x == 0
  {
    assert x >= 1 ==> (x - 1) * d >= 0;
    assert x <= -1 ==> (-1 - x) * d >= 0;
  }

  /** Division is determined by quotient and remainder. */
  lemma DivUnique(a: int, d: int, q: int, r: int)
    requires d > 0 && a == q * d + r && 0 <= r < d
    ensures a / d == q
  {
    var q', r' := a / d, a % d;
    assert a == q' * d + r' && 0 <= r' < d;
    assert (q' - q) * d == q' * d - q * d;
    MultipleBetween(q' - q, d);
  }

  lemma DivDiv2(v: nat, p: nat)
    requires p > 0
    ensures v / 2 / p == v / (2 * p)
  {
    var q := v / (2 * p);
    var r := v % (2 * p);
    assert v == q * (2 * p) + r && 0 <= r < 2 * p;
    DivUnique(v, 2, p * q + r / 2, r % 2);
    DivUnique(v / 2, p, q, r / 2);
  }

  /** Bit i of BitsOf(v, n) carries the weight 2^(n-1-i): the order is MSB first. */
  lemma {:induction false} BitsOfAt(v: nat, n: nat, i: nat)
    requires i < n
    ensures BitsOf(v, n)[i] == v / Pow2(n - 1 - i) % 2
  {
    if i < n - 1 {
      BitsOfAt(v / 2, n - 1, i);
      DivDiv2(v, Pow2(n - 2 - i));
    }
  }

  // ---------------------------------------------------------------------------
  // Messages as bit streams
  // ---------------------------------------------------------------------------

  /** The 8-bit, MSB-first form of one character. */
  function CharBits(c: Byte): (r: seq<Bit>)
    ensures |r| == 8
  {
    BitsOf(c, 8)
  }

  /**
   * The 8-bit form of a character reads back in base 2 as the character, and
   * it is the only 8-bit string that does.
   */
  lemma CharBitsValue(c: Byte)
    ensures Value(CharBits(c)) == c
    ensures forall bits: seq<Bit> :: |bits| == 8 && Value(bits) == c ==> bits == CharBits(c)
  {
    ValueOfBitsOf(c, 8);
    forall bits: seq<Bit> | |bits| == 8 && Value(bits) == c
      ensures bits == CharBits(c)
    {
      BitsOfValue(bits);
    }
  }

  /** A prefix of a concatenation that ends inside its first part is a prefix of that part. */
  lemma PrefixOfAppend<T>(a: seq<T>, b: seq<T>, n: nat)
    requires n <= |a|
    ensures (a + b)[..n] == a[..n]
  {
    assert |(a + b)[..n]| == |a[..n]|;
  }

  /** A concatenation splits back into its two parts. */
  lemma SplitAppend<T>(a: seq<T>, b: seq<T>)
    ensures (a + b)[..|a|] == a && (a + b)[|a|..] == b
  {
    assert |(a + b)[|a|..]| == |b|;
  }

  /** A sequence is its prefix of length n followed by the rest. */
  lemma SplitAt<T>(s: seq<T>, n: nat)
    requires n <= |s|
    ensures s == s[..n] + s[n..]
  {
    assert |s[..n] + s[n..]| == |s|;
  }

  /** A non-empty sequence is its first element followed by the rest. */
  lemma HeadTail<T>(s: seq<T>)
    requires |s| > 0
    ensures s == [s[0]] + s[1..]
  {
    assert |[s[0]] + s[1..]| == |s|;
  }

  /** Concatenation is associative. */
  lemma SeqAssoc<T>(a: seq<T>, b: seq<T>, c: seq<T>)
    ensures (a + b) + c == a + (b + c)
  {
    assert |(a + b) + c| == |a + (b + c)|;
  }

  /** The concatenated 8-bit forms of a message's characters, in order. */
  function MessageBits(m: seq<Byte>): (r: seq<Bit>)
    ensures |r| == 8 * |m|
  {
    if m == [] then [] else CharBits(m[0]) + MessageBits(m[1..])
  }

  /** The bits of a one-character message are that character's 8-bit form. */
  lemma MessageBitsSingle(c: Byte)
    ensures MessageBits([c]) == CharBits(c)
  {
    assert [c][1..] == [];
  }

  lemma {:induction false} MessageBitsAppend(a: seq<Byte>, b: seq<Byte>)
    ensures MessageBits(a + b) == MessageBits(a) + MessageBits(b)
  {
    if a != [] {
      assert (a + b)[1..] == a[1..] + b;
      MessageBitsAppend(a[1..], b);
    } else {
      assert a + b == b;
    }
  }

  /** Bits 8j .. 8j+7 of the stream are the 8-bit form of character j. */
  lemma {:induction false} MessageBitsChunk(m: seq<Byte>, j: nat)
    requires j < |m|
    ensures MessageBits(m)[8 * j..8 * j + 8] == CharBits(m[j])
  {
    if j > 0 {
      MessageBitsChunk(m[1..], j - 1);
      assert MessageBits(m)[8..] == MessageBits(m[1..]);
    }
  }

  /**
   * Stream bit k is bit k % 8, counted from the most significant end, of
   * character k / 8.
   */
  lemma MessageBitAt(m: seq<Byte>, k: nat)
    requires k < 8 * |m|
    ensures MessageBits(m)[k] == m[k / 8] / Pow2(7 - k % 8) % 2
  {
    var j := k / 8;
    MessageBitsChunk(m, j);
    assert MessageBits(m)[k] == CharBits(m[j])[k % 8];
    BitsOfAt(m[j], 8, k % 8);
  }

  // ---------------------------------------------------------------------------
  // Regrouping bits into characters
  // ---------------------------------------------------------------------------

  /** The character whose code is a chunk of at most 8 bits read in base 2. */
  function ChunkToChar(chunk: seq<Bit>): (r: Byte)
    requires |chunk| <= 8
    ensures BitsOf(r, |chunk|) == chunk
  {
    Pow2Monotonic(|chunk|, 8);
    BitsOfValue(chunk);
    Value(chunk)
  }

  /**
   * The character read from a chunk is below 2^|chunk|. With the contract of
   * ChunkToChar this fixes it as the chunk's base-2 value, also for a short
   * final chunk.
   */
  lemma ChunkToCharIsBelow(chunk: seq<Bit>)
    requires |chunk| <= 8
    ensures ChunkToChar(chunk) < Pow2(|chunk|)
    ensures ChunkToChar(chunk) == Value(chunk)
  {
    ValueOfBitsOf(ChunkToChar(chunk), |chunk|);
    BitsOfValue(chunk);
  }

  /** Chunk j of a bit string: bits 8j to 8j+7, cut short at the end of the string. */
  function Chunk(bits: seq<Bit>, j: nat): (r: seq<Bit>)
    requires 8 * j < |bits|
    ensures 0 < |r| <= 8
  {
    bits[8 * j..Min(8 * j + 8, |bits|)]
  }

  /**
   * One character per 8-bit chunk, in order; a final chunk of fewer than 8
   * bits is converted too.
   */
  function Chunks(bits: seq<Bit>): (r: seq<Byte>)
    ensures |r| == (|bits| + 7) / 8
    decreases |bits|
  {
    if bits == [] then []
    else
      var n := Min(8, |bits|);
      [ChunkToChar(bits[..n])] + Chunks(bits[n..])
  }

  /** Dropping the first 8 bits shifts every later chunk down by one. */
  lemma ChunkShift(bits: seq<Bit>, j: nat)
    requires 8 * (j + 1) < |bits|
    ensures Chunk(bits[8..], j) == Chunk(bits, j + 1)
  {
  }

  lemma {:induction false} ChunksAt(bits: seq<Bit>, j: nat)
    requires 8 * j < |bits|
    ensures Chunks(bits)[j] == ChunkToChar(Chunk(bits, j))
    decreases j
  {
    if j > 0 {
      ChunksAt(bits[8..], j - 1);
      ChunkShift(bits, j - 1);
    }
  }

  /** Regrouping the stream of a message gives the message back. */
  lemma {:induction false} ChunksOfMessageBits(m: seq<Byte>)
    ensures Chunks(MessageBits(m)) == m
  {
    if m != [] {
      var bits := MessageBits(m);
      assert bits[..8] == CharBits(m[0]);
      assert bits[8..] == MessageBits(m[1..]);
      ValueOfBitsOf(m[0], 8);
      ChunksOfMessageBits(m[1..]);
    }
  }

  // ---------------------------------------------------------------------------
  // Reading and writing least significant bits
  // ---------------------------------------------------------------------------

  /**
   * The LSB of every channel, in channel order: what is left of each value
   * once its upper seven bits are taken away.
   */
  function Lsbs(channels: seq<Byte>): (r: seq<Bit>)
    ensures |r| == |channels|
    ensures forall k :: 0 <= k < |channels| ==> channels[k] == 2 * (channels[k] / 2) + r[k]
  {
    seq(|channels|, k requires 0 <= k < |channels| => channels[k] % 2)
  }

  /** v with its least significant bit cleared and then set to b. */
  function SetLsb(v: Byte, b: Bit): (r: Byte)
    ensures r % 2 == b
    ensures r / 2 == v / 2
    ensures -1 <= r - v <= 1
  {
    v - v % 2 + b
  }

  /** bits[k] written into the LSB of channel k for every k both have; the rest is kept. */
  function EmbedBits(channels: seq<Byte>, bits: seq<Bit>): (r: seq<Byte>)
    ensures |r| == |channels|
    ensures forall k :: 0 <= k < |channels| && k < |bits| ==> r[k] % 2 == bits[k] && r[k] / 2 == channels[k] / 2
    ensures forall k :: |bits| <= k < |channels| ==> r[k] == channels[k]
  {
    seq(|channels|, k requires 0 <= k < |channels| =>
      if k < |bits| then SetLsb(channels[k], bits[k]) else channels[k])
  }

  /** Reading back the LSBs of an embedding yields the bits that fitted. */
  lemma LsbsOfEmbedBits(channels: seq<Byte>, bits: seq<Bit>, n: nat)
    requires n <= |bits| && n <= |channels|
    ensures Lsbs(EmbedBits(channels, bits))[..n] == bits[..n]
  {
  }
}
