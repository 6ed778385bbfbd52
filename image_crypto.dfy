/**
 * The byte fitting of picchange.py: generate_key, which pads a key with zero
 * bytes or truncates it to the chosen AES key length, and the zero-filled
 * w*h buffer into which the ciphertext is copied to be shown as a grayscale
 * image.
 */
module ImageCrypto {
  import opened LsbPlane

  /**
   * generate_key on the key's bytes: right-padded with zero bytes when
   * shorter than the length, cut to its first length bytes when longer, the
   * key itself otherwise.
   */
  function GenerateKey(key: seq<Byte>, length: nat): (r: seq<Byte>)
    ensures |r| == length
    ensures forall i :: 0 <= i < length ==> r[i] == if i < |key| then key[i] else 0
  {
    if |key| < length then
      key + seq(length - |key|, _ => 0)
    else if |key| > length then
      key[..length]
    else
      key
  }

  /** A short key is kept and followed by zero bytes up to the length. */
  lemma GenerateKeyPads(key: seq<Byte>, length: nat)
    requires |key| < length
    ensures GenerateKey(key, length)[..|key|] == key
    ensures forall i :: |key| <= i < length ==> GenerateKey(key, length)[i] == 0
  {
  }

  /** A long key is cut to its first length bytes. */
  lemma GenerateKeyTruncates(key: seq<Byte>, length: nat)
    requires |key| > length
    ensures GenerateKey(key, length) == key[..length]
  {
  }

  /** A key that already has the length is returned unchanged, so fitting twice is fitting once. */
  lemma GenerateKeyIdempotent(key: seq<Byte>, length: nat)
    ensures GenerateKey(GenerateKey(key, length), length) == GenerateKey(key, length)
    ensures |key| == length ==> GenerateKey(key, length) == key
  {
  }

  /**
   * The visualisation buffer: w * h zero bytes with their first
   * min(len(encrypted), w * h) bytes overwritten by the ciphertext's prefix.
   */
  method VisualisationBuffer(encrypted: seq<Byte>, w: nat, h: nat) returns (buffer: seq<Byte>)
    ensures |buffer| == w * h
    ensures buffer[..Min(|encrypted|, w * h)] == encrypted[..Min(|encrypted|, w * h)]
    ensures forall i :: |encrypted| <= i < w * h ==> buffer[i] == 0
    ensures buffer == GenerateKey(encrypted, w * h)
  {
    var paddedArray := new Byte[w * h](_ => 0);
    var n := Min(|encrypted|, paddedArray.Length);
    // the ciphertext's prefix overwrites the start of the zero buffer
    forall i | 0 <= i < n {
      paddedArray[i] := encrypted[i];
    }
    buffer := paddedArray[..];
    FittedPrefixIsGenerateKey(encrypted, w * h, buffer);
  }

  /**
   * A buffer of n bytes that starts with the data's prefix and is zero after
   * the data is the data fitted to n bytes the way a key is fitted to its length.
   */
  lemma FittedPrefixIsGenerateKey(data: seq<Byte>, n: nat, buffer: seq<Byte>)
    requires |buffer| == n
    requires buffer[..Min(|data|, n)] == data[..Min(|data|, n)]
    requires forall i :: |data| <= i < n ==> buffer[i] == 0
    ensures buffer == GenerateKey(data, n)
  {
    var m := Min(|data|, n);
    forall i | 0 <= i < n
      ensures buffer[i] == GenerateKey(data, n)[i]
    {
      if i < m {
        assert buffer[..m][i] == data[..m][i];
      }
    }
  }
}
