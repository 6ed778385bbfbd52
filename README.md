# ImageSecure Suite: a Dafny model of the LSB bit-plane core

This project models four things the suite does with least significant bits (LSBs):

- message steganography, which hides a message in the LSBs of an image's channels and reads it back;
- the invisible watermark, which embeds a fixed-length text in those LSBs and extracts it;
- LSB steganalysis, which counts the 0 and 1 LSBs and flags a lopsided distribution;
- the byte fitting of the image-encryption page: AES key padding and truncation, and the zero-filled buffer in which a ciphertext is shown as a grayscale image.

An RGB image of width `w` and height `h` is a flat sequence of `3*w*h` channel values in `0..255`. Channel `c` of the pixel at column `x`, row `y` sits at index `3*(y*w+x)+c`. This is the order in which encode_image, decode_image and lsb_analysis visit the channels, and the order numpy's flatten gives the watermark functions. Characters are values below 256, written as 8 bits with the most significant bit first.

Modules:

- `LsbPlane` (`lsb_plane.dfy`) holds what the operations share:
  - channel addressing;
  - 8-bit character forms;
  - regrouping bits into characters;
  - reading and writing LSBs.
- `Steganography` (`steganography.dfy`) models encode_image and decode_image as methods that loop over rows, columns and channels, as the source does. Only encoding works on an array copy of the image, which it updates channel by channel; decoding reads the input channels in place and builds its bit string and message step by step. Each method is proved equal to a specification function, and the round-trip and stop-chunk lemmas are proved about those functions.
- `Steganalysis` (`steganalysis.dfy`) models lsb_analysis as a looping method proved equal to `Analyze`. It also models the threshold test on the two percentages.
- `Watermark` (`watermark.dfy`) models add_invisible_watermark as a loop over a flat array copy. It fails with `IndexError` when the text needs more channels than the image has. detect_invisible_watermark is a function, because the source computes it as a comprehension.
- `ImageCrypto` (`image_crypto.dfy`) models generate_key and the visualisation buffer.

The code has fewer error checks and a looser framing than one might expect of such a tool, and the model follows the code:

- encode_image raises no capacity error. Bits that do not fit are dropped, and the stream is cut off.
- decode_image raises no "delimiter not found" error. Without a stop chunk it returns every chunk.
- decode_image converts a final chunk of fewer than 8 bits into a character; it does not drop it.
- Decoding stops at the chunk `11111110`, which is the second byte of the 16-bit tail. So the round trip returns the message followed by character 255, not the message itself (see "## Findings").
- The watermark's capacity failure is the `IndexError` of indexing past the flattened array.
- The irregularity test on percentages is stated exactly on integer counts: `100*abs(zeros - ones) > 5*(zeros + ones)`. It is proved equivalent to the test on exact rational percentages.

## Model

| member | source | states |
|---|---|---|
| LsbPlane.ChannelIndexFormula | stegnography.py:18-25 | the channel visited at row y, column x, channel c is index 3*(y*w+x)+c |
| LsbPlane.ChannelIndexInRange | stegnography.py:18-25 | every (x, y, c) of a w-by-h image addresses a channel below 3*w*h |
| LsbPlane.ChannelIndexInverse | stegnography.py:75-81 | each index k below 3*w*h is reached by the pixel ((k/3)%w, (k/3)/w) and channel k%3, so the row-major traversal covers every channel |
| LsbPlane.ChannelIndexUnique | stegnography.py:75-81 | a channel (x < w, y < h, c < 3) that reaches index k is that pixel and channel, so no channel is visited twice; with ChannelIndexInverse the addressing is a bijection |
| LsbPlane.ChannelCountIsProduct | stegnography.py:18-19 | a w-by-h image has 3*w*h channels |
| LsbPlane.CharBits | stegnography.py:15 | the form of a character has exactly 8 bits |
| LsbPlane.CharBitsValue | stegnography.py:15 | the 8-bit form of a character reads back in base 2 as the character, and no other 8-bit string does |
| LsbPlane.BitsOf | stegnography.py:15 | a value's 8-bit form has exactly the requested width |
| LsbPlane.Value | stegnography.py:53 | a bit string read in base 2 is below 2 to the power of its length, so an 8-bit chunk is a character |
| LsbPlane.ValueOfBitsOf | stegnography.py:53 | reading back the n-bit form of v < 2^n gives v |
| LsbPlane.BitsOfValue | stegnography.py:53 | the n-bit form of the value of n bits is those bits |
| LsbPlane.BitsOfAt | stegnography.py:15 | bit i of the n-bit form of v is bit n-1-i of v, so the most significant bit comes first |
| LsbPlane.MessageBits | stegnography.py:15 | a message of n characters becomes a stream of exactly 8n bits |
| LsbPlane.MessageBitsAppend | watermark.py:41 | the stream of a concatenation is the concatenation of the streams |
| LsbPlane.MessageBitsChunk | watermark.py:41 | bits 8j to 8j+7 of the stream are the 8-bit form of character j |
| LsbPlane.MessageBitAt | stegnography.py:15 | stream bit k is bit 7-k%8 of character k/8 |
| LsbPlane.Chunk | stegnography.py:49-50 | every chunk taken at an 8-bit boundary inside the string has 1 to 8 bits |
| LsbPlane.ChunkToChar | stegnography.py:53 | the character read from a chunk of at most 8 bits, written back with the chunk's width, gives the chunk again, so no bit is lost |
| LsbPlane.ChunkToCharIsBelow | stegnography.py:53 | the character read from a chunk is below 2 to the power of the chunk's length, so with ChunkToChar's own contract it is exactly the chunk's base-2 value; a short final chunk 101 gives 5 |
| LsbPlane.Chunks | watermark.py:56 | regrouping n bits gives (n+7)/8 characters |
| LsbPlane.ChunkShift | stegnography.py:49-50 | dropping the first chunk shifts every later chunk down by one position |
| LsbPlane.ChunksAt | watermark.py:56 | character j of the regrouping is chunk j read in base 2 |
| LsbPlane.ChunksOfMessageBits | watermark.py:41-56 | regrouping a message's stream gives the message back |
| LsbPlane.SetLsb | stegnography.py:25 | the new value has LSB b, the same upper seven bits, and differs from the old one by at most 1 |
| LsbPlane.Lsbs | stegnography.py:44-45 | one bit per channel, in channel order, each being what remains of the value once its upper seven bits are removed |
| LsbPlane.EmbedBits | stegnography.py:20-26 | the result has the input's length; channel k below the bit count has LSB bits[k] and its old upper bits; every later channel is unchanged |
| LsbPlane.LsbsOfEmbedBits | stegnography.py:25-45 | reading back the LSBs of an embedding yields the embedded bits that fitted |
| Steganography.DelimiterIsTwoChars | stegnography.py:15-51 | the 16-bit tail is the 8-bit forms of characters 255 and 254, and the stop chunk is that of 254 |
| Steganography.StopChunkIsOnly254 | stegnography.py:51 | the stop chunk is the 8-bit form of character 254 and of no other character |
| Steganography.StegoBits | stegnography.py:15 | the encoded stream has 8n+16 bits and regroups into the message followed by characters 255 and 254 |
| Steganography.StegoBitsAt | stegnography.py:15 | the encoded stream has 8n+16 bits: the message bits most significant first, then fifteen 1s and a 0 |
| Steganography.WriteLsbs | stegnography.py:16-27 | the row, column and channel loops give each channel below the stream length the next stream bit as its LSB; channels past the stream and bits past the image are left alone |
| Steganography.EncodeImage | stegnography.py:7-27 | the encoded image has the input's size; every channel keeps its upper bits and moves by at most 1; LSB k is stream bit k wherever both exist; later channels are unchanged |
| Steganography.DecodeBits | stegnography.py:48-53 | decoding yields at most one character per 8-bit chunk |
| Steganography.DecodeBitsFrom | stegnography.py:49-53 | one pass of the chunk loop at bit i either stops at the stop chunk or emits the chunk's character and goes on at i+8 |
| Steganography.ReadLsbs | stegnography.py:40-45 | the read loops collect exactly the LSB of every channel in traversal order |
| Steganography.DecodeChunks | stegnography.py:47-55 | the chunk loop, which stops at the stop chunk and also converts a short final chunk, returns exactly the chunk-and-stop decoding of its bit string |
| Steganography.DecodeImage | stegnography.py:34-55 | the decoded message is the chunk-and-stop decoding of the image's LSB stream |
| Steganography.DecodeWithoutStop | stegnography.py:49-53 | with no stop chunk, decoding returns every chunk, a short final chunk included, with no error |
| Steganography.DecodeStopsAtFirst | stegnography.py:49-53 | decoding returns exactly the chunks before the first stop chunk, whatever follows it |
| Steganography.DecodeCharThen | stegnography.py:51-53 | a character other than 254 decodes to itself, and decoding continues after it |
| Steganography.DecodeStopThen | stegnography.py:51-52 | the 8-bit form of 254 ends decoding whatever follows |
| Steganography.DecodeMessagePrefix | stegnography.py:49-53 | the stream of a message without character 254 decodes to that message, then to whatever follows |
| Steganography.DecodeStopsAfter | stegnography.py:49-53 | bits that begin with the stream of a message without 254 and then the stop chunk decode to exactly that message, whatever follows |
| Steganography.StegoRoundTrip | stegnography.py:15-53 | if the stream fits and the message has no 254, decoding the encoded image gives the message followed by character 255 |
| Steganography.StegoBitsThrough | stegnography.py:15 | the stream through character j is the stream of the first j characters followed by the form of character j |
| Steganography.StegoStopsAt254 | stegnography.py:15-53 | a message whose first 254 is at position j decodes to its first j characters, provided those 8j+8 bits fit |
| Steganography.HiDecodesWithTrailing255 | stegnography.py:15-53 | "Hi" encoded in any image with at least 32 channels decodes to "Hi" followed by character 255, not to "Hi" |
| Steganography.DecodeToDelimiter | stegnography.py:49-53 | the corrected decoding, which stops where the whole 16-bit tail starts, yields at most one character per chunk |
| Steganography.CharPairInjective | stegnography.py:15 | two characters are determined by their concatenated 8-bit forms |
| Steganography.DecodeCharBeforeDelimiter | stegnography.py:49-53 | with the corrected decoding, a character that does not start the tail with its successor decodes to itself |
| Steganography.DelimiterMessagePrefix | stegnography.py:15-53 | with the corrected decoding, a message in which 255 is never followed by 254 decodes to itself up to the tail |
| Steganography.DelimiterRoundTrip | stegnography.py:15-53 | with the corrected decoding, an encoded message that fits, with no 255 directly before a 254, decodes to exactly the message |
| Steganalysis.CountIsMultiplicity | stegnography.py:79-80 | the count of a bit is its multiplicity in the distribution |
| Steganalysis.CountsPartition | stegnography.py:83 | every LSB is a 0 or a 1, so the two counts add up to the number of channels |
| Steganalysis.CountAppend | stegnography.py:80-81 | recording one more LSB raises exactly its own count by one |
| Steganalysis.Analyze | stegnography.py:71-89 | the analysis has no result exactly when the image has no channel; otherwise the two counts add up to the channel count and the distribution is the LSB sequence |
| Steganalysis.IsIrregular | stegnography.py:169 | a flagged report has channels and unequal counts; a non-empty report with only 0s or only 1s is always flagged |
| Steganalysis.AnalyzeCoversAllChannels | stegnography.py:71-89 | there is no report exactly when the image has no channel; otherwise the counts cover all channels and the distribution is every channel's LSB in order |
| Steganalysis.LsbAnalysis | stegnography.py:57-89 | the counting loops over rows, columns and channels return the report of the whole image, or none when the total is 0 |
| Steganalysis.Percentage | stegnography.py:88 | count / total * 100 as an exact rational, for a positive total; it is never negative and at most 100 when the count is part of the total |
| Steganalysis.PercentagesSumTo100 | stegnography.py:88 | the two percentages add up to 100 |
| Steganalysis.IrregularIffPercentGap | stegnography.py:169 | the integer test 100*abs(zeros-ones) > 5*(zeros+ones) holds exactly when the two percentages differ by more than 5 |
| Steganalysis.ScaledComparison | stegnography.py:169 | for a positive total t, g/t > 5 exactly when g > 5t |
| Steganalysis.AllEvenIsIrregular | stegnography.py:169 | an image whose channels are all even reads as all zeros and is flagged |
| Steganalysis.AlternatingCounts | stegnography.py:79-81 | alternating LSBs give (n+1)/2 zeros and n/2 ones |
| Steganalysis.AlternatingIsNormalUnlessTiny | stegnography.py:169 | alternating LSBs are flagged exactly when the channel count is odd and below 20 |
| Watermark.AddInvisibleWatermark | watermark.py:40-49 | succeeds exactly when 8 times the text length fits the image; each of the first 8n values has LSB equal to text bit k, keeps its upper bits and moves by at most 1; the rest are unchanged |
| Watermark.DetectInvisibleWatermark | watermark.py:52-57 | succeeds exactly when 8 times the declared length fits the image; returns that many characters, character j being LSBs 8j to 8j+7 read in base 2 |
| Watermark.ChunksOfWholeBytes | watermark.py:56 | regrouping a whole number of bytes gives character j from bits 8j to 8j+7 |
| Watermark.WatermarkRoundTrip | watermark.py:40-57 | detecting with the text's own length recovers a text that fits |
| Watermark.DetectPrefix | watermark.py:55-56 | a shorter declared length gives a prefix of what a longer one gives |
| Watermark.DetectLongerAfterEmbed | watermark.py:40-57 | after embedding, any larger declared length that fits still begins with the text |
| ImageCrypto.GenerateKey | picchange.py:63-72 | the key has exactly the chosen length, with byte i the input's byte i where it exists and 0 elsewhere |
| ImageCrypto.GenerateKeyPads | picchange.py:66-68 | a short key is kept and followed by zero bytes |
| ImageCrypto.GenerateKeyTruncates | picchange.py:69-71 | a long key is cut to its first length bytes |
| ImageCrypto.GenerateKeyIdempotent | picchange.py:63-72 | a key of the right length is returned unchanged, so fitting twice is fitting once |
| ImageCrypto.VisualisationBuffer | picchange.py:116-118 | the buffer has w*h bytes, starts with as much of the ciphertext as fits, is zero after it, and is the ciphertext fitted to w*h like a key |
| ImageCrypto.FittedPrefixIsGenerateKey | picchange.py:116-118 | a buffer that starts with the data's prefix and is zero past the data is the data fitted to the buffer's length |

## Left out

- The Streamlit pages (home.py, app.py and the UI parts of the three modules): they are user interface and only call the modelled functions.
- Image file decoding and encoding (PIL open, PNG save, `BytesIO`) and numpy array conversion. An image is given as its flat channel sequence and its width and height.
- Non-RGB images: encode_image and decode_image do not convert the mode, and a pixel with other than three channels is not modelled. lsb_analysis converts to RGB first, so its shape check can never fail; the model has no such error.
- EncodeImage: the model writes channels in place in one array copy. The source copies each pixel to a list and writes the tuple back, which gives the same channel values.
- AES encryption and decryption, PKCS7 padding and unpadding (encrypt_image, decrypt_image, pad_data, unpad_data): these are calls into a cryptographic library.
- GenerateKey: works on the key's bytes. UTF-8 encoding of the typed text and the exception handler of generate_key are not modelled.
- VisualisationBuffer: the reshape to an h-by-w grayscale image only reinterprets the buffer and is not modelled.
- The visible watermark (add_visible_watermark): it is font rendering and alpha compositing by the imaging library.
- Characters are values below 256. A character of code 256 or more, which the source would write with more than 8 bits, is not modelled.
- Floating-point percentages: they are modelled as exact rationals and the threshold test on integer counts. Rounding of the float division is not modelled.
- AddInvisibleWatermark: the model follows NumPy 1.x value-based casting. There, `~1` is the Python int -2, `uint8 & -2` clears the LSB, and the result is written back into the uint8 array, which gives `SetLsb`. NumPy 2 does not convert a negative Python int to uint8, so under NumPy 2 the channel update would raise for any non-empty text; that behaviour is not modelled. The error path that is modelled is indexing past the end, which raises IndexError under either version.

## Findings

| source | as written | input that shows it | evidently intended | confidence | as-written member | corrected member |
|---|---|---|---|---|---|---|
| stegnography.py:15-51 | encode_image appends the 16-bit tail 11111111 11111110, but decode_image stops only at the 8-bit chunk 11111110, so the tail's first byte is decoded as character 255 | "Hi" encoded in a 4-by-4 black image decodes to "Hi" followed by character 255 | decoding stops at the whole 16-bit tail and returns exactly the message | high, not executed | Steganography.HiDecodesWithTrailing255 | Steganography.DelimiterRoundTrip |

`DecodeImage` and the lemmas about it model decode_image as written. `DecodeToDelimiter` is the corrected decoding. `DelimiterRoundTrip` proves that it returns exactly the encoded message, for any message in which 255 is never directly followed by 254.
