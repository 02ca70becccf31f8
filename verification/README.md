# Verified models of the image decoders and the command line parser

The viewer decodes its embedded images with the vendored `stb_image.h` and reads its options with
`CLIParser`. This project models the decoders' hard parts and that parser in Dafny, in the form the
sources have (objects with updated fields, loops over buffers), and proves each method against a
specification that is defined independently: a reference decoder, a closed form or an encoder.

- **Bits and canonical codes** (`Arithmetic`, `Bits`, `BitStrings`, `Canonical`, `CanonicalOrder`, `Slots`): C shifts
  and masks over natural numbers, the bit stream of a byte buffer, canonical prefix codes looked up through 16 bits.
- **zlib and DEFLATE** (`ZHuffman`, `ZBuf` for the program; `Deflate` for the reference decoder of RFC 1951;
  `DeflateEncode`, `DeflateStream` for what encoders write; `DeflateItems` for the numbers of that standard and
  for texts as the bytes and pairs it describes; `ZWindow` for the reference decoder with the
  bookkeeping of the 32-bit window; `Truncation`). The program accepts exactly what the reference with the
  window accepts, whether or not the input ends early, and the plain reference accepts exactly the encodings
  of block lists.
- **PNG** (`Png`, `PngDecoder`, `Adam7`, `PixelGrid`, `PngPasses`, `PngPack`, `PngRoundTrip`, `PngChunks`,
  `PngFound`, `PngFile`, `PngEndToEnd`, `PngWriter`): filters, bit depths, alpha, interlacing, chunks in both
  directions, the end-to-end theorem from a written file of any bit depth to the loaded samples, and a writer that
  shows every image has such a file. 16-bit samples are stored the way a little-endian machine stores them.
- **GIF rasters** (`GifLzw`, `GifPlacement`, `GifOffsets`, `GifCanvas`, `GifColors`, `GifDecoder`, `GifEncoder`, `GifFound`): the
  dictionary as runs of pixels, the program's backward links, interlaced placement and the offsets it is computed
  in, colour tables, and the greedy compressor.
- **JPEG entropy decoding and geometry** (`JpegHuffman`, `JpegTable`, `JpegBits`, `JpegBlock`, `JpegReader`,
  `JpegEncode`, `JpegScan`, `JpegOrder`, `JpegScanEncode`, `JpegGeometry`): the accelerated tables against the plain code,
  blocks against section F.2.2 of ITU-T T.81, whole baseline scans with their restart intervals against an
  encoder, block positions and upsampling rows.
- **PackBits** (`PackBits`) and the **command line** (`CommandLine`).

`Context` is the byte source all file decoders read, `SizeChecks` the overflow checks in front of allocations. `dafny verify dfyconfig.toml` checks the project.

Five properties one might expect are false of the code. For each there is an input and what does hold:

- A zlib stream that ends early is not always refused (`Truncation.CutStreamAccepted`). `ZBuf.DecodeBuffer` and
  `ZBuf.DecodeMalloc` say exactly which streams are. Nothing past the input is accepted when the last block is
  stored or its end-of-block code ends in a one, and then the check refuses nothing it should not
  (`Truncation.AcceptedEnd`, `Truncation.CheckIsExact`); whatever is accepted is complete once zero bytes are
  appended (`DeflateStream.StreamFound`, `DeflateStream.AcceptedWithZeros`).
- The offsets of an interlaced GIF frame can leave the range of an `int` (`GifOffsets.OverflowHappens`).
  `GifOffsets.FitsIntIff` gives the exact condition on canvas and frame, and `GifDecoder.Gif.ProcessGifRaster`
  promises its canvas under it.
- JPEG tables of 256 symbols can be misread (`JpegHuffman.CollisionHappens`). `JpegHuffman.AgreesByCounts` gives the
  exact condition on the sixteen counts.
- The check of a product of two shorts is wrong for negative second factors (`JpegBlock.Mul2ShortsNegative`), which
  its callers never pass. `JpegBlock.Mul2ShortsRightIff` says for which factors it is right.
- A short flag that starts with `-` can be taken for a long one (`CommandLine.ShortMisread`).
  `CommandLine.FlagResolves` gives the exact condition; the flag is a caller's choice, so it can be checked before
  the option is added.

Where a comment and the code differ the code is followed: the comment at line 4712 speaks of spare bytes
behind the image, but none are allocated and none are needed.

## Model

| member | source | states |
|---|---|---|
| Bits.BitReverse16Reverses | thirdparty/stb-image/stb_image.h:4107-4114 | The four mask-and-shift stages reverse exactly the low 16 bits of any 16-bit number |
| Bits.BitReverseReverses | thirdparty/stb-image/stb_image.h:4116-4122 | Reversing 16 bits and shifting reverses a code of any length up to 16 |
| Bits.ShiftIn | thirdparty/stb-image/stb_image.h:4205-4210 | A bit buffer stays below 2^n, and or-ing the next byte above its n bits appends exactly the next bits of the stream |
| Canonical.PrefixFree | thirdparty/stb-image/stb_image.h:4124-4169 | No code of an accepted length list is a prefix of another, so a lookahead has at most one symbol |
| Canonical.LookupDefined | thirdparty/stb-image/stb_image.h:4230-4233 | A 16-bit lookahead starts with some code exactly when it is below the largest preshifted bound |
| Canonical.FitsIsKraft | thirdparty/stb-image/stb_image.h:4135-4146 | The per-length checks accept a list exactly when its Kraft sum is at most one |
| CanonicalOrder.CodesFollow | thirdparty/stb-image/stb_image.h:4139-4150 | Among the symbols of a list in the order of their lengths and then of their numbers, each code word, filled up with zeros, is the one before it plus one, as section 3.2.2 of RFC 1951 assigns them |
| CanonicalOrder.FirstIsZero | thirdparty/stb-image/stb_image.h:4139-4150 | ... and the first code word is zero |
| Slots.SlotOrder | thirdparty/stb-image/stb_image.h:4152-4158 | Symbol slots are ordered by code length, then by symbol |
| Slots.SlotInjective | thirdparty/stb-image/stb_image.h:4152-4158 | No two used symbols share a slot |
| Slots.SlotOnto | thirdparty/stb-image/stb_image.h:4152-4158 | Every slot below the number of used symbols holds one of them, so the slots are a permutation of the used symbols |
| Slots.SlowLookup | thirdparty/stb-image/stb_image.h:4230-4240 | The length found by comparing with the bounds and the slot computed from it name exactly the symbol whose code starts the lookahead |
| ZHuffman.FastLookup | thirdparty/stb-image/stb_image.h:4159-4164 | A fast entry is the symbol of the one short code under which the lookahead lies; without an entry no short code matches |
| ZHuffman.Table.Build | thirdparty/stb-image/stb_image.h:4124-4169 | A length list is accepted exactly when its codes fit, and every array then holds what the lookups rely on, whatever the table held before |
| ZHuffman.Table.AssignCodes | thirdparty/stb-image/stb_image.h:4139-4150 | First codes, bounds and first slots of every length are those of the canonical code; a list that does not fit is refused |
| ZBuf.Decoder.ZGet8 | thirdparty/stb-image/stb_image.h:4197-4200 | The next input byte, and zero past the end without moving |
| ZBuf.Decoder.FillBits | thirdparty/stb-image/stb_image.h:4202-4212 | More than 24 bits are buffered, the position in the bit stream is unchanged and the stray-bits guard cannot fire |
| ZBuf.Decoder.ZReceive | thirdparty/stb-image/stb_image.h:4214-4222 | Returns the next n bits of the input followed by zeros, least significant first, and advances by n |
| ZBuf.Decoder.DecodeSlow | thirdparty/stb-image/stb_image.h:4224-4241 | On a fast-table miss finds the symbol in the stream or reports that there is none; its two defensive checks never fire |
| ZBuf.Decoder.Decode | thirdparty/stb-image/stb_image.h:4243-4271 | Fast table and slow path together return the unique symbol whose code comes next and consume its length; a call is refused exactly when there is no such symbol or the window is short of 16 bits with the input used up and the implicit zeros spent |
| ZBuf.Decoder.Expand | thirdparty/stb-image/stb_image.h:4273-4293 | Growing keeps the written bytes, leaves room for the request, never wraps, and fails only when the limit of the output is passed |
| ZBuf.MaxLimitIs | thirdparty/stb-image/stb_image.h:4280-4286 | The size that output can grow to is the initial one doubled as often as an unsigned int allows, and no further |
| ZBuf.Decoder.CopyBack | thirdparty/stb-image/stb_image.h:4348-4354 | Both the distance-one shortcut and the byte loop perform the overlapping copy of the standard |
| ZBuf.Decoder.ParseSymbol | thirdparty/stb-image/stb_image.h:4313-4355 | One turn of the symbol loop: output, the end of the block or a refusal, exactly as the reference with its window says, the check at the end of a block included |
| ZBuf.Decoder.ParseHuffmanBlock | thirdparty/stb-image/stb_image.h:4309-4357 | A compressed block is accepted and refused exactly as the reference with its window says, with its output, and the loop ends on every input |
| ZBuf.Decoder.ReadPair | thirdparty/stb-image/stb_image.h:4337-4342 | Length and distance symbols with their extra bits are read as by the reference decoder, whose numbers LengthRanges and DistanceRanges give |
| DeflateItems.LengthRanges | thirdparty/stb-image/stb_image.h:4295-4301 | The numbers of section 3.2.5 of RFC 1951: lengths start at 3, each symbol follows the range of the one before, four symbols share each number of extra bits, and 258 has a symbol of its own without extra bits |
| DeflateItems.DistanceRanges | thirdparty/stb-image/stb_image.h:4303-4307 | Distances start at 1, each symbol follows the range of the one before, two symbols share each number of extra bits, and the last range ends at 32768 |
| DeflateItems.CopyMatchAt | thirdparty/stb-image/stb_image.h:4348-4354 | Every byte of a copied match is the byte the distance before it, whether that was there before or is itself copied |
| DeflateItems.CopyMatchIs | thirdparty/stb-image/stb_image.h:4348-4354 | ... and these equations determine the copy |
| DeflateItems.FixedCodes | thirdparty/stb-image/stb_image.h:4472-4476 | The fixed literal and length codes are the ranges of binary numbers in the table of section 3.2.6 of RFC 1951 |
| DeflateItems.FixedDistanceCodes | thirdparty/stb-image/stb_image.h:4477 | The fixed distance codes are the five-bit numbers |
| DeflateItems.CodeLengthOrder | thirdparty/stb-image/stb_image.h:4361 | Code length sizes come for 16, 17, 18 and 0 first and then outwards from 8, alternately 8, 9, 10 ... and 7, 6, 5 ... |
| DeflateItems.HeaderFields | thirdparty/stb-image/stb_image.h:4438-4450 | A zlib header is accepted exactly when its method is 8, it has no preset dictionary and its check number is right |
| ZBuf.Decoder.ParseMatch | thirdparty/stb-image/stb_image.h:4337-4354 | A match with a valid distance appends its copy; it is refused exactly when the reference with its window refuses it |
| ZBuf.Decoder.ReadLengths | thirdparty/stb-image/stb_image.h:4379-4403 | The run-length coded code lengths are read or refused exactly as by the reference with its window |
| ZBuf.Decoder.ComputeHuffmanCodes | thirdparty/stb-image/stb_image.h:4359-4407 | A dynamic header is accepted exactly as the reference with its window says, with valid tables for exactly the length lists it encodes |
| ZBuf.Decoder.ParseUncompressedBlock | thirdparty/stb-image/stb_image.h:4409-4436 | A stored block is copied whole: the bytes prefetched into the bit buffer are its header, none is lost, and bad lengths are refused |
| ZBuf.Decoder.ParseZlibHeader | thirdparty/stb-image/stb_image.h:4438-4450 | Accepts exactly the two-byte headers that the code demands and stops right after them |
| ZBuf.Decoder.BuildFixed | thirdparty/stb-image/stb_image.h:4452-4466 | The fixed length lists always build |
| ZBuf.Decoder.ParseBlocks | thirdparty/stb-image/stb_image.h:4489-4507 | The loop over blocks ends on every input and accepts exactly what the reference with its window accepts |
| ZBuf.Decoder.ParseZlib | thirdparty/stb-image/stb_image.h:4481-4508 | A whole stream, with or without header, is accepted exactly when the reference with its window accepts it, with the same output |
| ZBuf.DecodeMalloc | thirdparty/stb-image/stb_image.h:4541-4555 | Decoding into a growing buffer of any positive initial size returns the output of the exact reference for the largest size the buffer can grow to, or nothing exactly when that refuses; every stream that lies within the input is decoded as by RFC 1951 |
| ZBuf.DecodeBuffer | thirdparty/stb-image/stb_image.h:4557-4566 | The same into a fixed buffer of any size |
| ZWindow.ZlibAgrees | thirdparty/stb-image/stb_image.h:4243-4271 | Adding the window changes no result: whatever is accepted is what the plain reference decodes, to the same place, and every stream that ends within the input is accepted |
| ZWindow.SizeIrrelevant | thirdparty/stb-image/stb_image.h:4273-4293 | Output growth is transparent on every input, streams read past the end included: two decoders whose limits hold the output accept the same streams with the same output |
| Deflate.FixedFit | thirdparty/stb-image/stb_image.h:4452-4466 | The fixed length lists have room for their codes |
| Deflate.NoBlockPastEnd | thirdparty/stb-image/stb_image.h:4428-4429 | A block header read wholly past the input is a stored block that is refused, so the block loop ends |
| DeflateEncode.SymbolBitsAt | thirdparty/stb-image/stb_image.h:4243-4271 | A symbol's code word stands in the stream if and only if the reference decoder reads that symbol there |
| DeflateEncode.TokensRoundTrip | thirdparty/stb-image/stb_image.h:4309-4357 | Any list of literals and valid length and distance pairs, encoded with any tables, decodes to its expansion |
| DeflateEncode.TokensFound | thirdparty/stb-image/stb_image.h:4309-4357 | Conversely, whatever the reference decoder accepts is the encoding of such a list |
| DeflateItems.ItemsRoundTrip | thirdparty/stb-image/stb_image.h:4309-4357 | Any text told as bytes and as pairs of a length from 3 to 258 and a distance from 1 to 32768, each pair meaning that every byte repeats the one the distance before, is decoded to that text; 258 is sent as symbol 285 |
| DeflateItems.ItemsFound | thirdparty/stb-image/stb_image.h:4309-4357 | Whatever the reference decoder accepts is a text told by such bytes and pairs |
| DeflateEncode.LensRoundTrip | thirdparty/stb-image/stb_image.h:4379-4403 | Any run-length encoding of code lengths decodes to those lengths |
| DeflateEncode.HeaderRoundTrip | thirdparty/stb-image/stb_image.h:4359-4407 | Any legal dynamic header decodes to the two length lists it was made from |
| DeflateEncode.HeaderFound | thirdparty/stb-image/stb_image.h:4359-4407 | Every accepted dynamic header is such an encoding |
| DeflateStream.BlockRoundTrip | thirdparty/stb-image/stb_image.h:4489-4506 | Stored, fixed and dynamic blocks decode to what they stand for |
| DeflateStream.StreamRoundTrip | thirdparty/stb-image/stb_image.h:4489-4507 | Any sequence of blocks of any kinds decodes to the concatenation of their outputs |
| DeflateStream.StreamFound | thirdparty/stb-image/stb_image.h:4489-4507 | Every accepted stream is an encoded sequence of blocks |
| DeflateStream.OutputLimitIrrelevant | thirdparty/stb-image/stb_image.h:4273-4293 | Output growth is transparent: any two limits that hold the output give the same result |
| DeflateStream.ZlibRoundTrip | thirdparty/stb-image/stb_image.h:4481-4508 | A zlib stream of encoded blocks decodes to their output, whatever follows it |
| DeflateStream.AcceptedWithZeros | thirdparty/stb-image/stb_image.h:4197-4200 | Accepted streams stay accepted with the same output when zero bytes are appended: reading past the end adds nothing but zeros |
| Truncation.AcceptedEnd | thirdparty/stb-image/stb_image.h:4326-4333 | Everything accepted is an encoding of blocks over the input and zeros behind it; it ends within the input when the last block is stored or its end-of-block code ends in a one, and at most four bytes past it when the last block is made of literals |
| Truncation.CheckIsExact | thirdparty/stb-image/stb_image.h:4326-4333 | When the last block that the plain reference reads is stored or its end-of-block code ends in a one, the end-of-input check is exact: the program gives the same result, inside the input |
| Truncation.CutStreamExact | thirdparty/stb-image/stb_image.h:4326-4333 | On the one-byte input 3 without header the window holds all of the end-of-block code, two bits of which lie past the input, so the check does not fire |
| Truncation.CutStreamAccepted | thirdparty/stb-image/stb_image.h:4557-4566 | The entry point returns an empty output for that byte where the standard asks for an error |
| Png.PaethIsStandard | thirdparty/stb-image/stb_image.h:4657-4668 | The rewritten Paeth predictor equals the one of section 6.6 of RFC 2083 on all integers, ties included |
| Png.ReconInverts | thirdparty/stb-image/stb_image.h:4754-4785 | Reconstruction inverts every filter type for any row, previous row and pixel size |
| Png.PaethNearest | thirdparty/stb-image/stb_image.h:4656-4669 | The predictor chosen is one of the three neighbours, none is nearer to left plus up minus upper left, and ties go to left, then up |
| Png.NoneUndone | thirdparty/stb-image/stb_image.h:4756-4758 | Filter type 0 of section 6 of RFC 2083, byte by byte: the bytes themselves |
| Png.SubUndone | thirdparty/stb-image/stb_image.h:4759-4763 | Type 1: if every byte holds its difference from the byte one pixel to the left, modulo 256 and zero before the row, the row comes back |
| Png.UpUndone | thirdparty/stb-image/stb_image.h:4764-4767 | Type 2: the same for the difference from the byte above |
| Png.AverageUndone | thirdparty/stb-image/stb_image.h:4768-4773 | Type 3: the same for the difference from half the sum of both, rounded down |
| Png.PaethUndone | thirdparty/stb-image/stb_image.h:4774-4785 | Type 4: the same for the difference from the standard predictor |
| PngRoundTrip.PixelStepRule | thirdparty/stb-image/stb_image.h:4706-4735 | The distance of the filters is the standard rule: bits of a complete pixel as bytes, rounded up |
| PngRoundTrip.FilterBytesAre | thirdparty/stb-image/stb_image.h:4706-4735 | ... and is the one the program uses |
| Png.RowsRoundTrip | thirdparty/stb-image/stb_image.h:4737-4787 | Every row of a filtered image is reconstructed to the bytes fed to the filters |
| Png.RowsFound | thirdparty/stb-image/stb_image.h:4737-4787 | Data whose filter types are known are always the filtered form of the rows they stand for |
| Png.ScaleFits | thirdparty/stb-image/stb_image.h:4791-4816 | Scaled samples below 8 bits fit a byte, so the scale table loses nothing |
| Png.AlphaTailWhole | thirdparty/stb-image/stb_image.h:4678-4692 | Writing opaque alpha from the last pixel backwards gives the same bytes as forwards |
| SizeChecks.Mul2Exact | thirdparty/stb-image/stb_image.h:1014-1020 | The division test accepts exactly the products that fit an int |
| Png.ImageLengthFits | thirdparty/stb-image/stb_image.h:4717-4720 | After the size checks the length of the filtered data does not wrap |
| PngDecoder.UnfilterRow | thirdparty/stb-image/stb_image.h:4754-4785 | Each filter type, with the substitute for the first row, reconstructs the row between two buffers and touches nothing else |
| PngDecoder.AlphaExpand8 | thirdparty/stb-image/stb_image.h:4675-4693 | Alpha insertion in place equals the out-of-place one |
| PngDecoder.Unpack1 | thirdparty/stb-image/stb_image.h:4810-4817 | Packed 1-bit samples are unpacked in order |
| PngDecoder.Unpack2 | thirdparty/stb-image/stb_image.h:4804-4809 | Packed 2-bit samples are unpacked in order |
| PngDecoder.Unpack4 | thirdparty/stb-image/stb_image.h:4798-4803 | Packed 4-bit samples are unpacked in order |
| PngDecoder.ExpandRow | thirdparty/stb-image/stb_image.h:4789-4852 | A reconstructed row becomes output samples at any depth, with alpha where asked for, and only its own part of the output changes |
| PngDecoder.Image.DecodeRows | thirdparty/stb-image/stb_image.h:4737-4853 | The alternating halves of the row buffer always hold the current and the previous row; the output is that of the filtered rows |
| PngDecoder.Image.CreateImageRaw | thirdparty/stb-image/stb_image.h:4696-4859 | A subimage is decoded exactly when its sizes, its length and its filter types are valid, and to exactly its rows |
| PngDecoder.PlacePass | thirdparty/stb-image/stb_image.h:4888-4895 | The two copying loops put every pixel of a pass in its place and touch no pixel of another pass |
| PngDecoder.Image.DecodePass | thirdparty/stb-image/stb_image.h:4880-4899 | A pass advances the input by exactly the bytes its reconstruction reads; an empty one by none |
| PngDecoder.Image.CreateImage | thirdparty/stb-image/stb_image.h:4861-4904 | Plain images are decoded as they are, interlaced ones with every pixel of all seven passes in its place; both exactly when valid |
| Adam7.PassSizes | thirdparty/stb-image/stb_image.h:4880-4881 | The width and height of each pass are the size formula with the tables put in; its unsigned subtraction never goes below zero |
| Adam7.PassOfIsPattern | thirdparty/stb-image/stb_image.h:4874-4877 | The origins and spacings are the 8 by 8 pattern of section 2.6 of RFC 2083 |
| Adam7.PassPixel | thirdparty/stb-image/stb_image.h:4888-4895 | Every pixel of a pass lies in the image and belongs to that pass only |
| Adam7.PixelPass | thirdparty/stb-image/stb_image.h:4888-4895 | Every image pixel is in its pass at the computed column and row |
| Adam7.PassesInjective | thirdparty/stb-image/stb_image.h:4888-4895 | No two pass pixels share an image pixel |
| Adam7.PassAreas | thirdparty/stb-image/stb_image.h:4880-4881 | The areas of the seven passes add up to the area of the image |
| PngRoundTrip.ImageRoundTrip | thirdparty/stb-image/stb_image.h:4737-4853 | The rows of an encoded image of any bit depth come back in order, with opaque alpha when asked for |
| PngPack.PackedBack | thirdparty/stb-image/stb_image.h:4791-4842 | At every bit depth, packing a row of samples the way the file holds it is undone by the unpacking, scaling and byte swapping of the decoder |
| PngRoundTrip.PassRoundTrip | thirdparty/stb-image/stb_image.h:4880-4899 | An encoded pass, at any bit depth, is readable and decodes to the original pixels it carries |
| PngRoundTrip.InterlacedRoundTrip | thirdparty/stb-image/stb_image.h:4861-4904 | Seven encoded passes, at any bit depth, decode to the original image |
| Context.Source.Get8 | thirdparty/stb-image/stb_image.h:1614-1623 | The next byte of the file, zero past its end |
| Context.Source.Skip | thirdparty/stb-image/stb_image.h:1644-1660 | Skipping, with a negative count moving to the end |
| Context.Source.Getn | thirdparty/stb-image/stb_image.h:1666-1688 | Reads all n bytes into the buffer or none |
| PngChunks.TwoDivisions | thirdparty/stb-image/stb_image.h:5119-5127 | The two divisions of the header check find exactly the images whose product of sizes is within the limit |
| PngEndToEnd.LoadableSmall | thirdparty/stb-image/stb_image.h:4712-4720 | An image of at most 8 bits per sample that passes the header check passes every later size check as soon as the output fits an int |
| PngChunks.ChunksRoundTrip | thirdparty/stb-image/stb_image.h:5173-5196 | Data chunks are put together in order, however they were cut and whatever other chunks stand between them |
| PngChunks.FileRoundTrip | thirdparty/stb-image/stb_image.h:5078-5261 | A file written chunk by chunk is read as its header and its data |
| PngFound.HeadFound | thirdparty/stb-image/stb_image.h:5107-5129 | A header that is accepted is, byte for byte, the header of the image it is accepted as |
| PngFound.FileFound | thirdparty/stb-image/stb_image.h:5078-5261 | Whatever is read as a whole image is the signature, its header chunk, chunks that may follow it, and an end chunk, and gives that header and the data of its data chunks; checksums and the length of the end chunk are not looked at |
| PngFile.GuessFits | thirdparty/stb-image/stb_image.h:5205-5206 | The unsigned arithmetic of the size guess never wraps |
| PngFile.Parser.ReadFields | thirdparty/stb-image/stb_image.h:5107-5129 | The header fields are accepted and refused as specified |
| PngChunks.HeadOkIs | thirdparty/stb-image/stb_image.h:5107-5129 | Headers are good exactly for sides from 1 to 2^24, depths 1, 2, 4, 8 and 16, colour types 0, 2, 4 and 6 with 1, 3, 2 and 4 samples per pixel, and at most 2^30 samples |
| PngFile.OutChannelsAre | thirdparty/stb-image/stb_image.h:5210-5213 | Grey images get alpha exactly when two channels are asked for, colour images when four are, and no others do |
| PngFile.Parser.Reserve | thirdparty/stb-image/stb_image.h:5184-5193 | The chunk buffer grows by doubling without wrapping and keeps its bytes |
| PngFile.Parser.ReadIdat | thirdparty/stb-image/stb_image.h:5173-5196 | One data chunk is appended, or refused exactly when too long or not all there |
| PngFile.Parser.NextChunk | thirdparty/stb-image/stb_image.h:5095-5258 | One chunk advances the parser exactly as specified, in every branch |
| PngChunks.AncillaryIs | thirdparty/stb-image/stb_image.h:5237-5252 | A chunk of unknown type may be skipped exactly when the first letter of its name is lower case |
| PngChunks.ChunkNames | thirdparty/stb-image/stb_image.h:5098-5216 | The chunk types and the signature are their letters |
| PngFile.Parser.ReadChunks | thirdparty/stb-image/stb_image.h:5095-5260 | The chunk loop ends on every file and gives the header and data the file calls for |
| PngFile.Finish | thirdparty/stb-image/stb_image.h:5199-5214 | The result is exactly the one the header and the data call for, through decompression, reconstruction and deinterlacing; it is a failure exactly when the size guess is no int, the stream is refused or the rows are not all valid |
| PngFile.ParsePngFile | thirdparty/stb-image/stb_image.h:5078-5261 | The result of loading is the one the file calls for |
| PngEndToEnd.EndToEnd | thirdparty/stb-image/stb_image.h:5078-5261 | Any grey or colour image of 1, 2, 4, 8 or 16 bits per sample, any filter per row, interlaced or not, any compression and any cut into chunks: loading returns the original samples |
| PngWriter.ZlibWritten | thirdparty/stb-image/stb_image.h:4481-4508 | Any data can be written as a zlib stream of stored blocks, byte for byte |
| PngWriter.WriterLoads | thirdparty/stb-image/stb_image.h:5078-5261 | Every grey or colour image of any bit depth, with any filters and interlaced or not, has a file that loads as the image |
| GifLzw.SizeIsWidth | thirdparty/stb-image/stb_image.h:6763-6766 | For minimum code sizes 1 to 11 the program grows the code width exactly when Appendix F of GIF89a does |
| GifLzw.SizeIsWidthIff | thirdparty/stb-image/stb_image.h:6700-6766 | Of all minimum code sizes the program accepts, the widths are those of Appendix F if and only if the size is not 0; with 0 they are one bit short |
| GifLzw.SentIsFound | thirdparty/stb-image/stb_image.h:6749-6757 | A code sent for a run is found by the decoder, one entry behind, even when it names the entry being made |
| GifLzw.CodesRoundTrip | thirdparty/stb-image/stb_image.h:6728-6768 | The codes between two clear codes decode to the runs they were sent for |
| GifLzw.RasterRoundTrip | thirdparty/stb-image/stb_image.h:6699-6773 | Any choice of codes and clear codes decodes to the original pixels, for minimum code sizes 1 to 8 |
| GifFound.FoundIsSent | thirdparty/stb-image/stb_image.h:6749-6757 | A code the decoder finds a run for is one an encoder may have sent for it |
| GifFound.RasterFound | thirdparty/stb-image/stb_image.h:6699-6773 | Whatever is accepted, for minimum code sizes 1 to 11, is some choice of codes and clear codes for exactly the pixels it gives, closed by the end code or cut off before another code |
| GifPlacement.RowOrderInverse | thirdparty/stb-image/stb_image.h:6679-6688 | The interlaced row order of Appendix E of GIF89a is injective and stays in the frame |
| GifPlacement.RowIndexInverse | thirdparty/stb-image/stb_image.h:6679-6688 | ... and reaches every row |
| GifPlacement.PassOrder | thirdparty/stb-image/stb_image.h:6683-6688 | Interlaced frames are drawn in the four passes of Appendix E, every eighth row from 0, every eighth from 4, every fourth from 2 and every second from 1, and from top to bottom in each |
| GifPlacement.CursorIs | thirdparty/stb-image/stb_image.h:6677-6688 | The cursor goes left to right through the rows in that order |
| GifPlacement.CursorPast | thirdparty/stb-image/stb_image.h:6664-6688 | In unbounded numbers the cursor stays below the frame after the last pixel |
| GifPlacement.Visits | thirdparty/stb-image/stb_image.h:6664-6688 | In unbounded numbers drawing visits each pixel of the frame exactly once and no pixel outside it |
| GifPlacement.EveryPixel | thirdparty/stb-image/stb_image.h:6664-6688 | Every pixel of the frame has its turn |
| GifCanvas.DrawStep | thirdparty/stb-image/stb_image.h:6666-6676 | Drawing one pixel changes that pixel of the canvas alone |
| GifCanvas.WholeFrame | thirdparty/stb-image/stb_image.h:6664-6688 | With enough indices every pixel of the frame is painted with its own index |
| GifColors.ParseColorTable | thirdparty/stb-image/stb_image.h:6597-6606 | The table read from a file holds the red, green and blue bytes of every entry and marks exactly the transparent one |
| GifColors.MoveTransparent | thirdparty/stb-image/stb_image.h:6921-6930 | Another transparent index takes the mark over, and the colours stay |
| GifColors.PaintedAs | thirdparty/stb-image/stb_image.h:6669-6675 | A pixel drawn with an index takes the red, green and blue bytes the file has for it and is opaque; the transparent index leaves the pixel as it is |
| GifDecoder.SpelledKept | thirdparty/stb-image/stb_image.h:6749-6757 | New table entries do not change what older ones spell; every prefix link leads to a smaller entry |
| GifDecoder.NextRun | thirdparty/stb-image/stb_image.h:6749-6757 | The table of links stays exactly the dictionary of the runs read so far |
| GifDecoder.Gif.Descriptor | thirdparty/stb-image/stb_image.h:6854-6880 | A frame is accepted exactly when it lies in the canvas, and drawing starts at its first pixel, or below it when it has no columns |
| GifDecoder.Gif.OutPixel | thirdparty/stb-image/stb_image.h:6664-6689 | One index is painted at its place in the frame, or dropped when the frame is full, as long as every offset computed so far is an int; an overflow is noticed exactly when one is not |
| GifDecoder.Gif.OutGifCode | thirdparty/stb-image/stb_image.h:6654-6689 | The recursive emitter ends and emits the run its entry spells, first pixel first |
| GifDecoder.Gif.AddCode | thirdparty/stb-image/stb_image.h:6744-6761 | A code is accepted exactly when the dictionary defines it and the table has room; its run is emitted and one entry added |
| GifDecoder.Gif.ReadCodes | thirdparty/stb-image/stb_image.h:6717-6773 | The code loop ends on every input and emits the pixels of the reference decoder |
| GifDecoder.Gif.ProcessGifRaster | thirdparty/stb-image/stb_image.h:6691-6773 | A raster, from its code size byte on, is read as by the reference decoder or refused; the canvas shows it, for all of the frame if its offsets fit an int and else up to the first that does not |
| GifDecoder.Gif.MoveOn | thirdparty/stb-image/stb_image.h:6677-6688 | A move reaches the next place of the cursor unless one of the offsets computed on the way is no int, and notices exactly that |
| GifDecoder.Gif.OtherOffsetsFit | thirdparty/stb-image/stb_image.h:6858-6866 | The start, the end and the steps of every accepted frame always fit an int |
| GifOffsets.FitsIntIff | thirdparty/stb-image/stb_image.h:6679-6687 | The offsets of a frame all stay in the range of an int if and only if 4 times the canvas width times the lowest row computed does, which for an interlaced frame lies four to seven rows past its end |
| GifOffsets.OverflowHappens | thirdparty/stb-image/stb_image.h:6679-6687 | On a canvas of 65535 by 8191 pixels, which every check lets through, a one-pixel interlaced frame on the last line leaves that range with its first pixel |
| GifOffsets.MostFramesFit | thirdparty/stb-image/stb_image.h:6790 | Frames that are not interlaced never do, and no frame does on a canvas whose bytes leave room for seven more lines |
| GifEncoder.LongestIsLongest | thirdparty/stb-image/stb_image.h:6691-6771 | The greedy compressor of Appendix F sends the longest run it knows |
| GifEncoder.GreedySpells | thirdparty/stb-image/stb_image.h:6691-6771 | Greedy compression is a legal encoding of exactly the indices it is given |
| GifEncoder.BlocksRoundTrip | thirdparty/stb-image/stb_image.h:6719-6727 | The cut into sub-blocks does not matter |
| GifEncoder.EncodedRoundTrip | thirdparty/stb-image/stb_image.h:6691-6771 | Encoded rasters are emitted unchanged |
| GifEncoder.GreedyRoundTrip | thirdparty/stb-image/stb_image.h:6691-6771 | Every index sequence is recovered from its greedy encoding |
| GifEncoder.WriterRoundTrip | thirdparty/stb-image/stb_image.h:6691-6773 | Any indices written as a raster, down to the bytes of its sub-blocks, are read back |
| GifEncoder.FrameShown | thirdparty/stb-image/stb_image.h:6597-6771 | In the finished frame every pixel has the red, green and blue bytes that the file has for the index the row order puts there, and 255; with the transparent index it has the bytes it had before |
| JpegHuffman.SizesCount | thirdparty/stb-image/stb_image.h:2007-2014 | The size list has exactly the counted symbols of each length |
| JpegHuffman.FoundIsWanted | thirdparty/stb-image/stb_image.h:2097-2146 | Unless symbol 255 has one of the short codes, the fast table and the search by length find exactly the symbol whose code comes next |
| JpegHuffman.AssertionHolds | thirdparty/stb-image/stb_image.h:2136-2140 | Under the same condition the assertion in the decoder always holds |
| JpegHuffman.CollisionMisread | thirdparty/stb-image/stb_image.h:2033-2044 | With 256 symbols and a short code for the last, that symbol is always misread |
| JpegHuffman.AgreesUnlessCollides | thirdparty/stb-image/stb_image.h:2097-2146 | The search is right for every lookahead if and only if symbol 255 has no code of at most nine bits |
| JpegHuffman.AgreesByCounts | thirdparty/stb-image/stb_image.h:2003-2046 | In terms of the sixteen counts of a table segment: an accepted table is searched rightly if and only if its codes of up to nine bits do not number 256 |
| JpegHuffman.CollisionHappens | thirdparty/stb-image/stb_image.h:2003-2046 | Such a table exists among those a file can hold: counts of 255 codes of eight bits and one of nine pass every check and collide |
| JpegTable.Huffman.Build | thirdparty/stb-image/stb_image.h:2003-2046 | A table is accepted exactly when it has at most 256 symbols and its codes fit, and its arrays then hold the canonical codes and bounds |
| JpegBits.StuffingRoundTrip | thirdparty/stb-image/stb_image.h:2075-2092 | Bytes written with a zero after every 0xff are read as they were |
| JpegBits.Rotated | thirdparty/stb-image/stb_image.h:2161-2163 | Rotating and masking splits the buffer into the next n bits and the rest |
| JpegReader.Reader.GrowBuffer | thirdparty/stb-image/stb_image.h:2075-2092 | The buffer gains at least a code word of bits of the unstuffed data, or ends at a marker; the position is unchanged |
| JpegReader.Reader.HuffDecode | thirdparty/stb-image/stb_image.h:2097-2146 | Returns the value of the symbol found and consumes its code, or fails only if there is none or the data end |
| JpegReader.Reader.ExtendReceive | thirdparty/stb-image/stb_image.h:2153-2166 | Returns the signed value of the next n bits of section F.2.2.1 of ITU-T T.81, or, only where they are not all there, zero without moving on |
| JpegReader.BuildFastAc | thirdparty/stb-image/stb_image.h:2050-2073 | The combined table holds the packed entries |
| JpegBlock.FastAcRight | thirdparty/stb-image/stb_image.h:2050-2073 | Every non-zero entry gives the same run, value and length as decoding and extending in two steps and fits 16 bits |
| JpegBlock.FastAcWhen | thirdparty/stb-image/stb_image.h:2050-2073 | An entry is packed if and only if the code and its extra bits fill at most nine bits, there are extra bits and the value fits a signed byte; symbol 255 is never packed |
| JpegBlock.Unpacks | thirdparty/stb-image/stb_image.h:2064-2067 | A packed entry gives back its value, run and length, and is never zero |
| JpegBlock.ShortWraps | thirdparty/stb-image/stb_image.h:2241-2258 | Storing a coefficient as a short drops all but its low 16 bits |
| JpegBlock.ZigzagOrder | thirdparty/stb-image/stb_image.h:2194-2207 | The table is the zigzag of Figure 5 of ITU-T T.81 |
| JpegBlock.ZigzagInverse | thirdparty/stb-image/stb_image.h:2194-2204 | No two coefficients share a place |
| JpegBlock.AddIntsExact | thirdparty/stb-image/stb_image.h:1070-1075 | The addition check is exact |
| JpegBlock.Mul2ShortsExact | thirdparty/stb-image/stb_image.h:1078-1084 | The multiplication check is exact for factors that are not negative, the only ones its callers pass |
| JpegBlock.Mul2ShortsRightIff | thirdparty/stb-image/stb_image.h:1078-1084 | On all integers the check agrees with the product if and only if the second factor is not negative, or it is -1 and the product fits, or it is smaller and the first factor is not negative or exactly the last one that fits |
| JpegBlock.Mul2ShortsNegative | thirdparty/stb-image/stb_image.h:1078-1084 | It is wrong both ways for negative factors: it refuses -1 times -2 and lets -20000 times -2 and -32768 times -1 pass |
| JpegReader.Reader.FastStep | thirdparty/stb-image/stb_image.h:2237-2245 | A step through the combined table is a step of the bit-by-bit decoder, with the run index below 79 |
| JpegReader.Reader.SlowStep | thirdparty/stb-image/stb_image.h:2246-2260 | A step through code and extra bits likewise |
| JpegReader.Reader.DecodeBlock | thirdparty/stb-image/stb_image.h:2210-2263 | While all bits are there, a block is exactly the one the code describes, and is refused exactly when the code describes none |
| JpegEncode.AcRoundTrip | thirdparty/stb-image/stb_image.h:2229-2261 | AC coefficients encoded by section F.1.2 of ITU-T T.81 come back |
| JpegEncode.BlockRoundTrip | thirdparty/stb-image/stb_image.h:2210-2263 | Any coefficients the tables have codes for come back multiplied by the quantization factors |
| JpegEncode.PlacedAt | thirdparty/stb-image/stb_image.h:2244-2258 | In the finished block every coefficient stands at its own place |
| JpegReader.Reader.SeeMarker | thirdparty/stb-image/stb_image.h:2969-2970 | At the end of an interval, less than a byte before what stops it, the marker there has been read and the file stands behind it |
| JpegReader.Reader.Reset | thirdparty/stb-image/stb_image.h:2936-2947 | The reader starts anew at the place in the file, with all predictions zero |
| JpegScan.Scanner.ParseBlock | thirdparty/stb-image/stb_image.h:2994-2995 | One block of a scan: decoded after its own prediction, handed to its place in its plane, or the scan is refused |
| JpegScan.Scanner.CountDown | thirdparty/stb-image/stb_image.h:3001-3005 | At the end of a unit the scan goes on, starts the next interval behind its restart marker, or is done at any other marker |
| JpegScan.Scanner.ParseUnits | thirdparty/stb-image/stb_image.h:2982-3007 | The loops over units, components, rows and columns read the blocks in the order of the scan and stop where it ends |
| JpegScan.Scanner.ParseEntropyCodedData | thirdparty/stb-image/stb_image.h:2949-3009 | A baseline scan of one or several components ends as its data call for, with exactly the planes they describe, for every restart interval; it is refused exactly when a block is, while its intervals are complete |
| JpegScanEncode.BytesWritten | thirdparty/stb-image/stb_image.h:2075-2092 | Bits packed into bytes, the last one filled up with ones, are read as they were |
| JpegScanEncode.ScanRoundTrip | thirdparty/stb-image/stb_image.h:2949-3009 | Every scan written with a restart marker after exactly every so many units, or with none and fewer units than an int counts, with any tables and stuffing, is accepted and gives its blocks |
| JpegScanEncode.EarlyEnd | thirdparty/stb-image/stb_image.h:2969-2973 | Where a restart marker is due and something else follows, the scan is accepted with the blocks before it and no others |
| JpegScanEncode.CountStep | thirdparty/stb-image/stb_image.h:2969-2974 | The countdown of the program runs out after exactly those units behind which the standard puts a marker |
| JpegOrder.UnitRowsHas | thirdparty/stb-image/stb_image.h:2982-2996 | A scan reads exactly the blocks of the planes of its components |
| JpegOrder.ScanHas | thirdparty/stb-image/stb_image.h:2955-2998 | A scan of one component reads exactly the blocks that hold one of the samples of its plane, and one of several all blocks of all units |
| JpegOrder.ScanOrder | thirdparty/stb-image/stb_image.h:2982-2998 | Units come row by row and from left to right; in each the components in their order, with their blocks row by row and from left to right |
| JpegScanEncode.ImageRoundTrip | thirdparty/stb-image/stb_image.h:2949-3009 | Every block the scan covers, of one component or of several, comes back dequantized at its own place, and no other place changes |
| JpegGeometry.FrameGeometry | thirdparty/stb-image/stb_image.h:3298-3351 | The frame is accepted exactly when the image and every plane pass the size checks and the sampling ratios are whole, with the largest factors and the planes they call for |
| JpegGeometry.PlaneFitsExact | thirdparty/stb-image/stb_image.h:3337-3346 | The size checks of a plane accept exactly the planes whose samples, twice as many with the coefficients of a progressive image, fit an int with the 15 bytes of alignment |
| JpegGeometry.SingleScanInside | thirdparty/stb-image/stb_image.h:2961-2968 | Every block of a scan of one component lies inside its plane |
| JpegGeometry.InterleavedInside | thirdparty/stb-image/stb_image.h:2989-2996 | Every block of an interleaved scan lies inside its plane |
| JpegGeometry.InterleavedApart | thirdparty/stb-image/stb_image.h:2989-2996 | No two blocks of an interleaved scan share a place |
| JpegGeometry.InterleavedOnto | thirdparty/stb-image/stb_image.h:2989-2996 | Interleaved scans leave no block of a plane out |
| JpegGeometry.LineFits | thirdparty/stb-image/stb_image.h:3902-3918 | Upsampling reads exactly the samples of a row of the plane and writes at most three bytes more than the image is wide |
| JpegGeometry.Resample.NextRow | thirdparty/stb-image/stb_image.h:3929-3940 | The row pointers stay inside the plane; each output row is made from the row it lies over and the neighbour it is nearer to |
| JpegGeometry.AllRows | thirdparty/stb-image/stb_image.h:3926-3941 | Output row j of any component is made mostly from source row j divided by its vertical ratio, and from the row above in the upper half of its group, the one below in the lower half |
| PackBits.DecodeRle | thirdparty/stb-image/stb_image.h:6088-6124 | Decodes one channel at a stride of four, refuses exactly the overrunning data, changes no other byte, and ends on every input |
| PackBits.PackBitsRoundTrip | thirdparty/stb-image/stb_image.h:6088-6124 | Any packing into literals, runs and no-ops decodes to its values (section 9 of TIFF 6.0) |
| PackBits.PacketsFound | thirdparty/stb-image/stb_image.h:6088-6124 | Whatever is accepted is a packing of the values it gives, where a file that ends too early continues with zeros |
| CommandLine.CLIParser.AddOption | src/app/src/rocprofvis_cli_parser.cpp:38-66 | Options with empty or known flags are refused without effect; the two maps stay inverse to each other |
| CommandLine.CLIParser.Parse | src/app/src/rocprofvis_cli_parser.cpp:69-109 | The results are those of reading the arguments from the second on |
| CommandLine.CLIParser.WasOptionFound | src/app/src/rocprofvis_cli_parser.cpp:112-116 | Whether the option is in the found set of the last parse, which the round trip and ParseRendered determine |
| CommandLine.CLIParser.GetOptionValue | src/app/src/rocprofvis_cli_parser.cpp:119-127 | The value found last, or nothing |
| CommandLine.CLIParser.GetOptionCount | src/app/src/rocprofvis_cli_parser.cpp:130-139 | The number of different options found |
| CommandLine.FlagResolves | src/app/src/rocprofvis_cli_parser.cpp:79-93 | The long form of an option always names it; the short form does if and only if it cannot be taken for another long form |
| CommandLine.ResolveIs | src/app/src/rocprofvis_cli_parser.cpp:79-93 | An argument names an option exactly when it is two dashes and its long flag, or one dash and its short flag and does not look like a long one; arguments without a dash name none |
| CommandLine.ShortMisread | src/app/src/rocprofvis_cli_parser.cpp:79-93 | Two options that can both be registered, of which the short form of the first is read as the second |
| CommandLine.CommandLineRoundTrip | src/app/src/rocprofvis_cli_parser.cpp:69-139 | Any list of options in readable form, with values even if they look like flags and mixed with any words that are no flags, is read back: the options mentioned and the values given last; an option at the very end without its value keeps the one before |
| CommandLine.ParseRendered | src/app/src/rocprofvis_cli_parser.cpp:69-139 | A caller that parses such a command line is told that an option was found exactly if it is mentioned, its last value, and the number of different options mentioned |

## Left out

- ZBuf.DecodeMalloc: an initial size of zero is excluded, because the doubling loop at line 4282 would not end; a failing allocation is not modelled, and neither is the conversion of an output length above the int range.
- PngFile.ParsePngFile: palettes, tRNS chunks and the iPhone variant end in the result `NotModelled`; header-only scans, checksums and the final conversion to another number of channels are not modelled.
- PngEndToEnd.EndToEnd: palette images are left out; sizes that the checks behind the header refuse are excluded by `Loadable`, which depends on the header and the request alone.
- PngDecoder.ExpandRow: 16-bit output is fixed to little-endian byte order.
- GifDecoder.Gif.ProcessGifRaster: leaving the range of an int has no defined result in C; the model notes it in a field and draws nothing from then on. Recursion depth is not bounded.
- GifLzw.RasterRoundTrip: minimum code size 0 is excluded, because its codes cannot name the end code; GIF89a starts at 2.
- GifDecoder.Gif.Descriptor: reading the descriptor fields, choosing between the global and a local colour table, disposal methods and background are not modelled; the colour table is a parameter.
- JpegReader.Reader.DecodeBlock: nothing is stated about blocks that need bits past the entropy-coded data, where a missing value is read as zero without moving on.
- JpegScan.Scanner.ParseEntropyCodedData: nothing is stated about scans that are cut short, that leave whole bytes over at the end of an interval (whether the marker behind them is seen depends on how far the buffer was filled), or that use a colliding table. A single component is read as a unit of one block. Without restart markers a scan has fewer than 2147483647 units. A plane holds dequantized blocks: the inverse DCT is not modelled.
- JpegHuffman: progressive scans, the parsing of headers and quantization tables, and colour conversion are not modelled.
- JpegGeometry.FrameGeometry: starts after the header fields are read; an allocation that fails is not modelled.
- CommandLine: help text, console attachment and log messages.
- Files and callbacks: every decoder reads a byte sequence in memory; refilling, rewinding and format sniffing are not modelled.
- The other loaders (BMP, TGA, PIC, PNM, HDR, the rest of PSD), SIMD kernels, and the user interface: many cases or foreign calls that would add no depth.
