/**
 * The invisible watermark of watermark.py: add_invisible_watermark and
 * detect_invisible_watermark.
 *
 * The image array of shape (h, w, 3) is flattened, which gives the channel
 * order of LsbPlane. Embedding overwrites the LSBs of the first 8n channels
 * with the 8-bit forms of the n text characters; there is no delimiter, and
 * a text longer than the image allows fails on the first index past the end.
 * Detection reads exactly 8 * length LSBs and regroups them into characters.
 */
module Watermark {
  import opened LsbPlane

  /** A value, or the IndexError raised by indexing past the flattened array. */
  datatype Result<T> = Ok(value: T) | IndexError

  /**
   * add_invisible_watermark: copy the image into a flat array and, for each
   * text bit i, replace the LSB of flat channel i by that bit. The output has the
   * input's length and order, so reshaping it restores the image's shape.
   */
  method AddInvisibleWatermark(image: seq<Byte>, text: seq<Byte>) returns (r: Result<seq<Byte>>)
    ensures r.Ok? <==> 8 * |text| <= |image|
    ensures r.Ok? ==> r.value == EmbedBits(image, MessageBits(text))
    ensures r.Ok? ==> |r.value| == |image|
    ensures r.Ok? ==> forall k :: 0 <= k < |image| ==>
      r.value[k] / 2 == image[k] / 2 && -1 <= r.value[k] as int - image[k] as int <= 1
    ensures r.Ok? ==> forall k :: 0 <= k < 8 * |text| ==> r.value[k] % 2 == MessageBits(text)[k]
    ensures r.Ok? ==> forall k :: 8 * |text| <= k < |image| ==> r.value[k] == image[k]
  {
    var binaryWatermark := MessageBits(text);
    var flatImage := new Byte[|image|](k requires 0 <= k < |image| => image[k]);
    for i := 0 to |binaryWatermark|
      invariant i <= flatImage.Length
      invariant forall k :: 0 <= k < i ==> flatImage[k] == SetLsb(image[k], binaryWatermark[k])
      invariant forall k :: i <= k < flatImage.Length ==> flatImage[k] == image[k]
    {
      if i >= flatImage.Length {
        return IndexError;
      }
      flatImage[i] := SetLsb(flatImage[i], binaryWatermark[i]);
    }
    r := Ok(flatImage[..]);
  }

  /**
   * detect_invisible_watermark: the first 8 * length LSBs of the flattened
   * image, regrouped into length characters, most significant bit first.
   */
  function DetectInvisibleWatermark(image: seq<Byte>, length: nat): (r: Result<seq<Byte>>)
    ensures r.Ok? <==> 8 * length <= |image|
    ensures r.Ok? ==> |r.value| == length
    ensures r.Ok? ==> forall j :: 0 <= j < length ==> r.value[j] == Value(Lsbs(image)[8 * j..8 * j + 8])
  {
    if 8 * length > |image| then IndexError
    else
      var binaryWatermark := Lsbs(image)[..8 * length];
      ChunksOfWholeBytes(binaryWatermark);
      assert forall j :: 0 <= j < length ==>
        binaryWatermark[8 * j..8 * j + 8] == Lsbs(image)[8 * j..8 * j + 8];
      Ok(Chunks(binaryWatermark))
  }

  /** Regrouping a whole number of bytes: chunk j is bits 8j .. 8j+7. */
  lemma ChunksOfWholeBytes(bits: seq<Bit>)
    requires |bits| % 8 == 0
    ensures |Chunks(bits)| == |bits| / 8
    ensures forall j :: 0 <= j < |bits| / 8 ==> Chunks(bits)[j] == Value(bits[8 * j..8 * j + 8])
  {
    forall j | 0 <= j < |bits| / 8
      ensures Chunks(bits)[j] == Value(bits[8 * j..8 * j + 8])
    {
      ChunksAt(bits, j);
    }
  }

  /**
   * Round trip: detection with the text's own length recovers a text that
   * fits the image.
   */
  lemma WatermarkRoundTrip(image: seq<Byte>, text: seq<Byte>)
    requires 8 * |text| <= |image|
    ensures DetectInvisibleWatermark(EmbedBits(image, MessageBits(text)), |text|) == Ok(text)
  {
    var bits := MessageBits(text);
    LsbsOfEmbedBits(image, bits, |bits|);
    assert bits[..|bits|] == bits;
    ChunksOfMessageBits(text);
  }

  /** A shorter declared length gives a prefix of what a longer one gives. */
  lemma DetectPrefix(image: seq<Byte>, k: nat, k': nat)
    requires k <= k' && 8 * k' <= |image|
    ensures DetectInvisibleWatermark(image, k).Ok?
    ensures DetectInvisibleWatermark(image, k).value <= DetectInvisibleWatermark(image, k').value
  {
    var short := DetectInvisibleWatermark(image, k).value;
    var long := DetectInvisibleWatermark(image, k').value;
    assert forall j :: 0 <= j < k ==> short[j] == long[j];
  }

  /** After embedding a text, detection with any larger length that fits still begins with it. */
  lemma DetectLongerAfterEmbed(image: seq<Byte>, text: seq<Byte>, length: nat)
    requires |text| <= length && 8 * length <= |image|
    ensures DetectInvisibleWatermark(EmbedBits(image, MessageBits(text)), length).Ok?
    ensures text <= DetectInvisibleWatermark(EmbedBits(image, MessageBits(text)), length).value
  {
    var marked := EmbedBits(image, MessageBits(text));
    WatermarkRoundTrip(image, text);
    DetectPrefix(marked, |text|, length);
  }
}
