# AstroPix data decoding and row/column matching, in Dafny

This project models the core of the AstroPix analysis software. AstroPix is a
monolithic pixel sensor. Its DAQ board hands the host fixed-length readouts;
the software turns them into hits and pairs row and column half-hits into
pixel hits.

The model covers:

- **The AstroPix4 binary format** (`astropix_analysis/fmt.py`).
  - A hit is a bit pattern cut into fields of fixed widths. The model covers
    the AstroPix3 and AstroPix4 layouts, `_calculate_size`, the Gray-code
    counters and the timestamp rollover.
  - A readout is the DAQ bytes stripped of `0xff` padding and stamped with a
    readout id and a time. It is written to disk behind the `fedcba` header.
  - `decode` splits a readout into hits by skipping the `0xbc` idle bytes.
- **The file layer** (`astropix_analysis/fileio.py`).
  - The `%APXDF` file header.
  - `AstroPixBinaryFile`, which iterates over the readouts of a file.
  - `_convert_apxdf`, which writes one text line per decoded hit.
- **The text-log decoders.**
  - `New_Source_Decoder.py`: the recovery filter that cuts hex hits out of
    each logged string, and its per-line pipeline (padding removal, carried
    fragments, `bcbc` splitting, `dec_ord` numbering).
  - `Quad_Chip_Decoder.py`: the 22-character A-STEP hits, `find_all_indexes`,
    the mask that drops overwritten headers, the end-of-line carry, and
    `decode_astep_hit` with the `int(s, 16)` it relies on. The end-of-line
    check is modelled twice, selected by `EndCheck`: `AsWritten` compares
    with the number of `ffff` pieces, as line 127 does, and `AtEnd` with the
    length of the text, as intended (see Findings).
- **Row/column matching.**
  - The matcher exists three times: `astropix3rowcol.py`,
    `rowcolmatch/rowcolmatch.cpp` and `rowcolmatch/astropix3rowcol.cpp`.
    All three run the same scan, so one method `RowCol.MatchRowsCols`
    models all of them.
  - The two C++ drivers: argument parsing with `std::stoi`, filtering,
    grouping by layer and chip, and the output file name.

Methods carry the loops and state changes of the source; each is proved equal
to a specification function. The properties the format and the algorithms
promise are lemmas about those functions:

- round trips, both for bytes and for files;
- soundness and completeness of the matcher;
- what the decoders recover and what they carry from one line to the next.

Integers are unbounded. Where the source's fixed widths matter, the model
writes the bound out: `struct` formats refuse values that do not fit, and
`std::stoi` range checks.

## Model

| member | source | states |
|---|---|---|
| Bytes.Pack | astropix_analysis/fmt.py:438-440 | `struct.pack` of an n-byte little-endian unsigned field succeeds exactly when the value fits, and its bytes read back as the value |
| Bytes.LittleEndianRoundTrip | astropix_analysis/fmt.py:416-427 | unpacking the little-endian bytes of a value that fits gives the value back |
| Bytes.FromLittleEndianRoundTrip | astropix_analysis/fmt.py:416-427 | any n bytes are the packing of their own little-endian value |
| Bits.BitPattern | astropix_analysis/fmt.py:57-60 | the pattern is eight binary characters per byte |
| Bits.BitPatternByte | astropix_analysis/fmt.py:57-60 | characters 8k to 8k+8 are byte k written in binary, most significant bit first |
| Bits.BitSlice | astropix_analysis/fmt.py:62-65 | slicing a pattern gives a number exactly when the slice is non-empty (`int('', 2)` raises) |
| Bits.BinValueOfToBinary | astropix_analysis/fmt.py:62-65 | reading back a value written in w binary digits gives the value, when it fits in w bits |
| Bits.FromBitsOfBitPattern | astropix_analysis/fmt.py:57-60 | the bytes can be rebuilt from their bit pattern |
| Bits.BitPatternInjective | astropix_analysis/fmt.py:57-60 | different bytes have different bit patterns |
| Bits.ReverseBitOrderSpec | astropix_analysis/fmt.py:29-37 | `reverse_bit_order` keeps the length, reverses the eight binary digits of every byte, and undoes itself |
| Bits.ReverseByteInvolution | astropix_analysis/fmt.py:29-32 | reversing a byte's bits twice gives the byte back |
| Gray.GrayToDecimal | astropix_analysis/fmt.py:142-156 | the shift-and-xor loop computes the Gray decoding of its input |
| Gray.GrayDecodeEncode | astropix_analysis/fmt.py:142-156 | decoding the Gray code of n gives n |
| Gray.GrayEncodeDecode | astropix_analysis/fmt.py:142-156 | decoding is a bijection: encoding what was decoded gives the code back |
| Gray.GrayDecodeBound | astropix_analysis/fmt.py:142-156 | decoding a k-bit code gives a k-bit number, and 0 for 0 |
| Hit.CalculateSize | astropix_analysis/fmt.py:121-139 | `_calculate_size` succeeds exactly when the widths add up to whole bytes; the size is then the bit count over 8 |
| Hit.LayoutSizes | astropix_analysis/fmt.py:247-259 | the AstroPix3 layout is 5 bytes and the AstroPix4 layout 8 bytes |
| Hit.AstroPix4Offsets | astropix_analysis/fmt.py:277-293 | the twelve AstroPix4 fields fill 64 bits, and the last one starts at bit 59 |
| Hit.AstroPix3Offsets | astropix_analysis/fmt.py:247-259 | the nine AstroPix3 fields fill 40 bits, and the last one starts at bit 32 |
| Hit.FieldValues | astropix_analysis/fmt.py:114-118 | the field loop succeeds exactly when every field slice is non-empty, and it gives one value per field |
| Hit.ReadFields | astropix_analysis/fmt.py:106-118 | the constructor's loop over the layout reads the fields from the bit pattern of the data |
| Hit.FieldValuesDefined | astropix_analysis/fmt.py:114-118 | with positive widths, the fields can be read exactly when the last field starts inside the data |
| Hit.FieldValueAt | astropix_analysis/fmt.py:116-118 | field i is the binary number at its offset, and it fits its width |
| Hit.EncodeFieldValues | astropix_analysis/fmt.py:114-118 | the fields tile the bits: writing each one back in its width gives the bits that were read |
| Hit.FieldValuesOfEncode | astropix_analysis/fmt.py:114-118 | reading back values that fit their widths gives those values |
| Hit.HitFieldsRoundTrip | astropix_analysis/fmt.py:106-118 | the fields of a hit rebuild its data bytes, and each field fits its width |
| Hit.ComposeTimestamp | astropix_analysis/fmt.py:313-331 | `_compose_ts` Gray-decodes the coarse counter shifted left by 3 plus the fine counter |
| Hit.ComposeTsBound | astropix_analysis/fmt.py:313-331 | a 14-bit coarse and a 3-bit fine counter compose to less than `CLOCK_ROLLOVER` (also astropix_analysis/fmt.py line 295) |
| Hit.NewAstroPix3Hit | astropix_analysis/fmt.py:262-269 | the AstroPix3 constructor reads the nine fields and sets `tot` to `(tot_msb << 8) + tot_lsb` |
| Hit.NewAstroPix4Hit | astropix_analysis/fmt.py:297-311 | the AstroPix4 constructor reads the twelve fields, composes both timestamps, and adds the rollover when the stop one is below the start one |
| Hit.AstroPix4HitDefined | astropix_analysis/fmt.py:106-118 | an AstroPix4 hit can be built exactly from 8 bytes or more; shorter data raises |
| Hit.AstroPix3HitDefined | astropix_analysis/fmt.py:106-118 | an AstroPix3 hit can be built exactly from 5 bytes or more; shorter data raises |
| Hit.HitFieldBounds | astropix_analysis/fmt.py:116-117 | every field fits its width, whatever data follows the hit |
| Hit.AstroPix3Tot | astropix_analysis/fmt.py:268 | `tot` is the 12-bit number with `tot_msb` as its top four bits and `tot_lsb` as its low eight |
| Hit.AstroPix4Timestamps | astropix_analysis/fmt.py:303-309 | start timestamp below 2^17; the stop one follows it by less than a rollover period and equals the stop counter modulo it |
| Hit.AstroPix4Counters | astropix_analysis/fmt.py:283-289 | the counters of a built hit fit their widths, and its timestamps are composed from them |
| Hit.CountersTimestamps | astropix_analysis/fmt.py:303-307 | timestamps composed from in-range counters are unrolled as the previous row says |
| Hit.RolledOverSpan | astropix_analysis/fmt.py:306-307 | adding the rollover makes the stop count follow the start one by the elapsed count modulo 2^17 |
| Hit.LayoutFieldsOf | astropix_analysis/fmt.py:114-118 | the fields stored in a built hit are those read from its data, in layout order |
| Hit.SameHitIffSameFields | astropix_analysis/fmt.py:227-230 | `__eq__` compares raw bytes; on 8-byte AstroPix4 hits, that is the same as every layout field agreeing |
| Hit.SameAstroPix3HitIffSameFields | astropix_analysis/fmt.py:227-230 | the same for 5-byte AstroPix3 hits, which inherit `__eq__`: equal bytes exactly when every layout field agrees |
| Streams.InputStream.Read | astropix_analysis/fmt.py:427 | `read(n)` returns up to n bytes from the position, fewer at the end, and moves past them |
| Streams.OutputStream.Write | astropix_analysis/fmt.py:437-441 | `write` appends its bytes |
| Readout.RStrip | astropix_analysis/fmt.py:389 | `rstrip` removes exactly the trailing run of the byte: the result is a prefix that does not end in it, and everything removed was that byte |
| Readout.NewReadoutStripped | astropix_analysis/fmt.py:379-390 | a readout's data never ends in padding, and constructing from it again changes nothing |
| Readout.Write | astropix_analysis/fmt.py:429-441 | `write` appends the header, the id, the timestamp, the length and the data; it raises where a field does not fit its format |
| Readout.RecordComplete | astropix_analysis/fmt.py:429-441 | `write` completes exactly when id, timestamp and length fit `<L`, `<Q`, `<L`; the record is then 19 bytes longer than the data and starts with the header |
| Readout.ReadField | astropix_analysis/fmt.py:415-427 | `read_and_unpack` gives a value exactly when all the field's bytes are there |
| Readout.ReadAndUnpack | astropix_analysis/fmt.py:415-427 | reads one fixed-size little-endian field from the input stream |
| Readout.ParseReadout | astropix_analysis/fmt.py:443-471 | `from_file` signals the end of the file exactly at its end, and a readout consumes at least the 19-byte preamble |
| Readout.FromFile | astropix_analysis/fmt.py:443-471 | reads the header, then the id, the timestamp and the length-prefixed data, or stops at the end, or raises on a bad header |
| Readout.ReadoutRoundTrip | astropix_analysis/fmt.py:429-471 | wherever a stored readout's record sits in a file, `from_file` reads that readout back and stops at the record's end |
| Readout.ReadoutTruncated | astropix_analysis/fmt.py:456-471 | a record cut at k bytes: k = 0 is the end of the file; inside the preamble it raises; inside the data it gives the data cut short |
| Readout.SkipIdle | astropix_analysis/fmt.py:504-505 | the idle-skipping loop stops at the first byte that is not `0xbc`, or at the end |
| Readout.SkipIdleBytes | astropix_analysis/fmt.py:504-505 | the method runs that loop (also astropix_analysis/fmt.py lines 512-513) |
| Readout.SkipIdleRun | astropix_analysis/fmt.py:504-505 | everything skipped is an idle byte |
| Readout.HitAt | astropix_analysis/fmt.py:506-510 | slices the hit-sized frame, reverses its bit order when asked, and builds the hit |
| Readout.Decode | astropix_analysis/fmt.py:473-514 | `decode`'s loop gives the hits of the frames between idle runs, in order, or raises on the first frame too short to build one |
| Readout.DecodeReadoutFramed | astropix_analysis/fmt.py:473-514 | for data made of 8-byte frames behind idle runs, with padding after them, `decode` returns one hit per frame, in order |
| Readout.DecodeReadoutAllIdle | astropix_analysis/fmt.py:501-510 | a readout of only idle bytes makes `decode` raise: after the idles, the hit class gets an empty frame |
| Readout.FramesFramed | astropix_analysis/fmt.py:501-513 | the loop slices framed data into exactly its frames |
| Readout.BuildHitsOk | astropix_analysis/fmt.py:510 | building the hits succeeds exactly when every frame builds one; the hits are then one per frame, in order |
| DecodeSamples.Sample0Decodes | tests/test_decode.py:74-79 | the normal sample readout decodes to its two hits |
| DecodeSamples.Sample1Decodes | tests/test_decode.py:82-87 | with no idle bytes between them, both hits are still decoded |
| DecodeSamples.Sample5Decodes | tests/test_decode.py:115-121 | a `0xe0` inside a frame does not start a new hit |
| DecodeSamples.Sample0Frames | tests/test_decode.py:29 | the sample's bytes are two frames behind two idle bytes each, six idles, and 14 padding bytes |
| FileIO.WriteHeader | astropix_analysis/fileio.py:66-77 | writes the magic word, the 4-byte length, and the JSON bytes; raises where the content does not serialize or is too long |
| FileIO.HeaderComplete | astropix_analysis/fileio.py:66-77 | the header is written completely exactly when the content serializes to fewer than 2^32 bytes; the header is then 10 bytes longer |
| FileIO.ParseHeader | astropix_analysis/fileio.py:80-94 | `FileHeader.read` never moves past the end of the file |
| FileIO.ReadHeader | astropix_analysis/fileio.py:80-94 | checks the magic word, reads the length, and deserializes that many bytes |
| FileIO.HeaderBadMagic | astropix_analysis/fileio.py:88-90 | when the first six bytes are not `%APXDF`, reading raises |
| FileIO.HeaderRoundTrip | astropix_analysis/fileio.py:66-100 | content that survives its JSON round trip is written, then read back as an equal header, and the file is left at the first record |
| FileIO.AstroPixBinaryFile.constructor | astropix_analysis/fileio.py:125-130 | a new file object has no header and no input |
| FileIO.AstroPixBinaryFile.Open | astropix_analysis/fileio.py:133-147 | a path without `.apx` raises and changes nothing; otherwise the header is read and kept |
| FileIO.AstroPixBinaryFile.Close | astropix_analysis/fileio.py:148 | leaving `open` drops the input and keeps the header |
| FileIO.AstroPixBinaryFile.Next | astropix_analysis/fileio.py:156-162 | `__next__` reads the next readout, stops at the end of the file, or raises what `from_file` raises |
| FileIO.RecordsRoundTrip | astropix_analysis/fileio.py:156-162 | iterating over records laid one after the other reads back exactly their readouts, in order |
| FileIO.FileRoundTrip | astropix_analysis/fileio.py:66-94 | a file written as a header plus readout records reads back as the same header and the same readouts, in order (also astropix_analysis/fileio.py lines 156-162) |
| FileIO.Lines | astropix_analysis/fileio.py:179-180 | one converter line per hit |
| FileIO.ConvertCounts | astropix_analysis/fileio.py:177-181 | the conversion loop succeeds exactly when every readout reads and decodes; it then writes one line per hit, in order, and counts the hits |
| FileIO.WriteLines | astropix_analysis/fileio.py:179-181 | the inner loop appends one line per hit and counts them |
| FileIO.ConvertHits | astropix_analysis/fileio.py:178-181 | the outer loop over the readouts writes and counts as the conversion function says |
| FileIO.ConvertReadout | astropix_analysis/fileio.py:178-181 | one turn of the outer loop |
| FileIO.Convert | astropix_analysis/fileio.py:165-183 | `_convert_apxdf` opens the file, writes the optional header line, converts every hit, and returns the output path |
| FileIO.ConvertWrittenFile | astropix_analysis/fileio.py:165-183 | converting a written file gives the header line, then one line per hit of every readout; it fails exactly when decoding a readout raises |
| Text.Split | New_Source_Decoder.py:77 | `str.split` gives at least one piece (also Quad_Chip_Decoder.py line 110) |
| Text.SplitJoin | New_Source_Decoder.py:77-80 | joining the pieces of a split with the separator rebuilds the string |
| Text.SplitPiecesAvoidSeparator | New_Source_Decoder.py:77 | no piece of a split contains the separator |
| Text.ConcatDropEmpty | New_Source_Decoder.py:77-80 | dropping the empty pieces does not change their concatenation |
| Text.ConcatSplitIsReplace | New_Source_Decoder.py:76-80 | splitting, dropping empty pieces and joining is the same as removing every separator (also Quad_Chip_Decoder.py lines 115-119) |
| Text.Find | Quad_Chip_Decoder.py:62 | `find` gives the first occurrence at or after the start, or -1 when there is none |
| Text.Slice | Quad_Chip_Decoder.py:128-129 | Python slicing clamps its bounds to the sequence |
| SourceDecoder.Filter | New_Source_Decoder.py:12-33 | every string recovered is one hit long and opens with the header; strings too short or longer than 1000 characters give nothing |
| SourceDecoder.FilterPrefixLocal | New_Source_Decoder.py:22-32 | what the filter recovers from a prefix depends on that prefix only |
| SourceDecoder.FilterGivesUp | New_Source_Decoder.py:22-33 | a string ending in neither a header one hit from the end nor `bc` gives nothing |
| SourceDecoder.GarbageAfterHitLosesIt | New_Source_Decoder.py:22-33 | a valid hit followed by two stray characters is lost |
| SourceDecoder.BackToBackHits | New_Source_Decoder.py:25-29 | hits written back to back are all recovered, last first |
| SourceDecoder.FilterSubstrings | New_Source_Decoder.py:25-29 | every hit recovered is a substring of the input, at a position the filter found |
| SourceDecoder.WithoutPadding | New_Source_Decoder.py:76-80 | the split-on-`ffff` pass removes every `ffff` |
| SourceDecoder.IdlePieces | New_Source_Decoder.py:83-86 | the non-empty `bcbc` pieces concatenate to the text with every `bcbc` removed |
| SourceDecoder.CutLine | New_Source_Decoder.py:83-92 | nothing of the text is lost between the pieces and the carried fragment; the fragment is non-empty and shorter than a hit |
| SourceDecoder.FilterPieces | New_Source_Decoder.py:94-96 | the loop filters every piece in order, and every result is a hit |
| SourceDecoder.DecodeLine | New_Source_Decoder.py:98-111 | every decoded hit of a line gets its position among the line's hits as `dec_ord` |
| SourceDecoder.DecodeLogLine | New_Source_Decoder.py:73-112 | the body of the log loop: a data line is cleaned, cut, filtered, decoded and counted; other lines change nothing |
| SourceDecoder.DecodeLog | New_Source_Decoder.py:68-112 | the loop over the lines of the log |
| SourceDecoder.CounterCountsDataLines | New_Source_Decoder.py:74 | the line counter counts exactly the lines that start with a digit (also New_Source_Decoder.py line 112) |
| SourceDecoder.OtherLinesIgnored | New_Source_Decoder.py:74 | lines that do not start with a digit change nothing |
| SourceDecoder.CarryShort | New_Source_Decoder.py:88-92 | the fragment carried between lines is never empty and always shorter than a hit |
| SourceDecoder.RowsNumberedPerLine | New_Source_Decoder.py:99-112 | a data line keeps the earlier rows, numbers its own from 0, and counts one line |
| QuadDecoder.HexValue | Quad_Chip_Decoder.py:13-16 | `int(s, 16)` fails on the empty string; a text of hex digits reads as their value; any value read from n characters lies strictly between −16^n and 16^n |
| QuadDecoder.HexValueStripped | Quad_Chip_Decoder.py:13-16 | `int` ignores white space around the literal |
| QuadDecoder.HexValueSigned | Quad_Chip_Decoder.py:13-16 | a sign followed by `0x`, `0X` or `0x_` before hex digits is accepted; `-` negates the value |
| QuadDecoder.HexValueLenient | Quad_Chip_Decoder.py:13-16 | white space, a sign and a base prefix around hex digits give the signed value of the digits |
| QuadDecoder.HexValueUnderscore | Quad_Chip_Decoder.py:13-16 | a single underscore between digits is accepted: `1_f` reads as 31 |
| QuadDecoder.HexValueMalformed | Quad_Chip_Decoder.py:13-16 | a doubled, leading or trailing underscore, a bare prefix and a bare sign raise `ValueError` |
| QuadDecoder.Unhexlify | Quad_Chip_Decoder.py:15 | `unhexlify` gives one byte per two characters and fails on an odd length |
| QuadDecoder.UnhexlifyHexlify | Quad_Chip_Decoder.py:15 | unhexlifying the hex text of some bytes gives them back |
| QuadDecoder.HexValueHexlify | Quad_Chip_Decoder.py:16 | the hex text of some bytes reads as their big-endian value |
| QuadDecoder.DecodeAstepHit | Quad_Chip_Decoder.py:12-53 | a decoded hit keeps its `dec_ord` and readout; every field fits its bit width; `tot_total` is `(tot_msb << 8) + tot_lsb` |
| QuadDecoder.DecodeEncodedHit | Quad_Chip_Decoder.py:12-53 | a hit written from its fields decodes to them, dropping the reserved bit and the upper nibble of the ToT byte |
| QuadDecoder.FrameFields | Quad_Chip_Decoder.py:38-47 | the shifts and masks undo the packing of the frame bytes |
| QuadDecoder.FindAllIndexes | Quad_Chip_Decoder.py:58-67 | the loop returns every occurrence of the header, in increasing order |
| QuadDecoder.OccurrencesExact | Quad_Chip_Decoder.py:58-67 | the indexes found are exactly the positions where the header occurs, strictly increasing |
| QuadDecoder.KeepMask | Quad_Chip_Decoder.py:69-71 | the mask has one entry per header (the last always set), or one entry when there is none (also Quad_Chip_Decoder.py lines 122-124) |
| QuadDecoder.KeptHeadersExact | Quad_Chip_Decoder.py:121-125 | masking raises exactly on an empty header list; otherwise it keeps the headers a later one does not overwrite, the last among them |
| QuadDecoder.KeptAreUnoverwritten | Quad_Chip_Decoder.py:123-125 | boolean indexing with the mask keeps exactly the headers at least one hit before the next |
| QuadDecoder.UnoverwrittenSpaced | Quad_Chip_Decoder.py:123-125 | the kept headers are found headers, a hit apart from one another |
| QuadDecoder.CutAsWritten | Quad_Chip_Decoder.py:127-132 | the check as written: the last header is carried exactly when it plus 22 exceeds the number of `ffff` pieces |
| QuadDecoder.CutAsWrittenHits | Quad_Chip_Decoder.py:127-135 | as written, the headers left still have whole hits and no text is lost; the carry starts with `0a01` but may be a complete hit or longer |
| QuadDecoder.AsWrittenCarriesMore | Quad_Chip_Decoder.py:127 | as written, the check carries whenever the corrected one does, and then carries the same thing; otherwise it carries exactly when the header plus 22 exceeds the piece count |
| QuadDecoder.CompleteHitCarriedAsWritten | Quad_Chip_Decoder.py:127-130 | as written, a complete hit alone in a line's text is carried instead of decoded (see Findings) |
| QuadDecoder.CutAtEnd | Quad_Chip_Decoder.py:127-132 | corrected end-of-line check: the last header is carried exactly when its hit runs past the end of the text |
| QuadDecoder.CompleteHitDecodedAtEnd | Quad_Chip_Decoder.py:127-132 | with the corrected check, that hit is decoded on its own line |
| QuadDecoder.CutHitsComplete | Quad_Chip_Decoder.py:127-135 | after the cut, each header left has a whole hit; the carry is an incomplete hit starting with `0a01`; no text is lost |
| QuadDecoder.AllOkValues | Quad_Chip_Decoder.py:134-138 | decoding all hits succeeds exactly when every hit decodes, and the values are theirs, in order |
| QuadDecoder.AllOkFirstError | Quad_Chip_Decoder.py:134-138 | otherwise the error raised is that of the first hit that fails |
| QuadDecoder.HitResults | Quad_Chip_Decoder.py:134-136 | one result per header; each hit is numbered by its position and carries the line counter |
| QuadDecoder.DecodedHits | Quad_Chip_Decoder.py:134-138 | on success: one row per kept header, with `dec_ord` its position and `readout` the line counter |
| QuadDecoder.DecodeLineHits | Quad_Chip_Decoder.py:134-138 | the `enumerate` loop decodes every kept hit and stops at the first that raises; it also returns the rows written to the file before that hit |
| QuadDecoder.OkPrefixExact | Quad_Chip_Decoder.py:134-138 | the rows a loop writes before raising are the values of the results up to the first error, which comes right after them; with no error, all values |
| QuadDecoder.OkPrefixAtError | Quad_Chip_Decoder.py:134-138 | when every hit before position k decodes and hit k raises, the rows written are the decodings of those k hits |
| QuadDecoder.WrittenHitsDecoded | Quad_Chip_Decoder.py:134-138 | each row written for a line is the decoding of the hit at the header of the same position |
| QuadDecoder.WrittenHitsStop | Quad_Chip_Decoder.py:134-138 | when fewer rows are written than there are kept headers, the hit after the last row written raises |
| QuadDecoder.WrittenHitsAll | Quad_Chip_Decoder.py:134-138 | when no hit raises, the rows written are exactly the line's rows |
| QuadDecoder.WholeHitLayerOne | Quad_Chip_Decoder.py:14 | a whole hit in the text at a `0a01` header that decodes is from layer 1 |
| QuadDecoder.WrittenLayerOne | Quad_Chip_Decoder.py:134-138 | every row written before a hit raises is from layer 1 |
| QuadDecoder.LayerOne | Quad_Chip_Decoder.py:14 | a hit whose text starts with `0a01` comes from layer 1 |
| QuadDecoder.LineData | Quad_Chip_Decoder.py:105-119 | the line's text is the carry plus the `b'…'` payload, with quotes and `ffff` removed; it is at least as long as the number of `ffff` pieces |
| QuadDecoder.CutSound | Quad_Chip_Decoder.py:127-135 | under either check the kept headers have whole hits and the carry starts with `0a01`; under the corrected check the carry is an incomplete hit |
| QuadDecoder.ByteLine | Quad_Chip_Decoder.py:104-138 | the rows of a `b'…'` line are numbered by position and carry the line counter; with `AsWritten` the cut is line 127 as written (`len(no_ff_list)`), with `AtEnd` the corrected one |
| QuadDecoder.ByteLineSound | Quad_Chip_Decoder.py:104-138 | under either check a `b'…'` line writes layer-1 rows only and its carry starts with `0a01`; only under `AtEnd` is the carry an incomplete hit |
| QuadDecoder.DecodeByteLine | Quad_Chip_Decoder.py:104-138 | the method runs the body of the loop for a `b'…'` line, with the cut of line 127 chosen by `check`, and returns the rows written before a raise as well |
| QuadDecoder.ByteLineWrites | Quad_Chip_Decoder.py:104-138 | a `b'…'` line that does not raise writes exactly its rows |
| QuadDecoder.ByteLineWrittenLayerOne | Quad_Chip_Decoder.py:104-138 | under either check, what a `b'…'` line writes, whether or not it raises later, is layer-1 rows |
| QuadDecoder.DecodeQuadLine | Quad_Chip_Decoder.py:101-141 | the loop body for one line: the text after `INFO:` is decoded and counted when it starts with `b`, and skipped otherwise; a line without `INFO:` raises before writing anything |
| QuadDecoder.DecodeQuadLog | Quad_Chip_Decoder.py:89-141 | the loop over the log, from no carry and counter 0; `AsWritten` is the source's loop, `AtEnd` the corrected one; besides the result it returns every row written to the file, including those before a line raises |
| QuadDecoder.QuadWrittenRun | Quad_Chip_Decoder.py:89-141 | the rows in the file begin with the rows written before the run; when no line raises they are exactly the run's rows |
| QuadDecoder.QuadWrittenSound | Quad_Chip_Decoder.py:97-141 | from a sound state, every row in the file is from layer 1, including those written before a line raises |
| QuadDecoder.RowsKeptOnError | Quad_Chip_Decoder.py:101-141 | a line that decodes followed by a line without `INFO:`: the run raises, and the file keeps the first line's rows |
| QuadDecoder.QuadRunSound | Quad_Chip_Decoder.py:101-141 | a run keeps earlier rows and counts the `b'…'` lines; every row is from layer 1 and a counted line; the carry starts with `0a01`, and under `AtEnd` stays an incomplete hit |
| QuadDecoder.QuadLogSound | Quad_Chip_Decoder.py:89-141 | decoding a whole log, under either check, counts one per `b'…'` line and writes layer-1 rows, each numbered by an earlier line; the file holds exactly those rows, and when a line raises it still holds only layer-1 rows |
| QuadDecoder.SingleHeader | Quad_Chip_Decoder.py:58-67 | a text opening with `0a01` and with no `a` after it has that one header only |
| QuadDecoder.SingleHitText | Quad_Chip_Decoder.py:105-119 | a `b'…'` line whose body has no quote and no `f`, with nothing carried, has that body as its text and as its one piece |
| QuadDecoder.SingleHitAsWritten | Quad_Chip_Decoder.py:127-138 | as written, a line that is one complete hit writes no row and carries the hit |
| QuadDecoder.SingleHitAtEnd | Quad_Chip_Decoder.py:127-138 | under the corrected check the same line writes its hit as one row |
| QuadDecoder.LoneHitLine | Quad_Chip_Decoder.py:104-138 | the line `b'0a01060000000000000000'`: as written no row and the hit carried; corrected, one row (see Findings) |
| RowCol.Pair | astropix3rowcol.py:73-84 | a matched hit takes layer and chip from the row, and each other field from its own half (also rowcolmatch/rowcolmatch.cpp lines 29-42) |
| RowCol.DefaultsAgainstCommandLine | astropix3rowcol.py:48 | the default tests are the windows 0..1 and 7..14; the command-line defaults 6..15 also accept differences of 6 and 15, which the function defaults reject (also rowcolmatch/astropix3rowcol.cpp lines 33-36, rowcolmatch/main.cpp lines 87-88) |
| RowCol.Cluster | astropix3rowcol.py:64-69 | the columns a row is tried against lie after it |
| RowCol.ClusterIsClustered | astropix3rowcol.py:64-69 | they are the first run of consecutive columns after the row, with rows before that run skipped (also rowcolmatch/rowcolmatch.cpp lines 16-24) |
| RowCol.MatchRowsCols | astropix3rowcol.py:59-87 | the scan returns the matches of every row, grouped by row in input order (also rowcolmatch/rowcolmatch.cpp lines 10-49, rowcolmatch/astropix3rowcol.cpp lines 38-84) |
| RowCol.ScanCluster | astropix3rowcol.py:63-85 | the inner scan appends the row's accepted pairs with its cluster, in column order (also rowcolmatch/astropix3rowcol.cpp lines 45-79) |
| RowCol.PairedMembers | astropix3rowcol.py:68-71 | a row has at most one pair per column; a match is exactly the pair with an accepted column |
| RowCol.MatchedIff | astropix3rowcol.py:59-87 | both directions: m is a match exactly when some row and some column of its cluster are accepted by both tests, and m is their pair (also rowcolmatch/rowcolmatch.cpp lines 12-47) |
| RowCol.MatchedSound | astropix3rowcol.py:59-87 | every match names its row and its column |
| RowCol.MatchedComplete | astropix3rowcol.py:59-87 | every accepted pair of a row with a column of its cluster is output |
| RowCol.MatchesOfIff | astropix3rowcol.py:63-85 | the matches of one half-hit: none for a column, its accepted cluster pairs for a row |
| RowCol.MatchesPerRow | astropix3rowcol.py:66-69 | a row has at most as many matches as its cluster has columns |
| RowCol.ColumnSharedByRows | astropix3rowcol.py:86 | two rows before one column both match it: the outer scan does not consume columns |
| RowCol.RowEndsCluster | astropix3rowcol.py:66 | a row after the cluster ends the search; a later column is not matched |
| RowColMain.Stoi | rowcolmatch/main.cpp:39-44 | `std::stoi` reads an `int` in range, or fails with no digits or out of range |
| RowColMain.InIntRange | rowcolmatch/main.cpp:39-44 | a value is accepted exactly when it fits a 32-bit `int` |
| RowColMain.StoiReadsDecimal | rowcolmatch/main.cpp:39-44 | any `int` written in decimal, then any non-digit text, reads back as itself |
| RowColMain.StoiReadsDigits | rowcolmatch/main.cpp:39-44 | the digits of k read back as k, or fail when k is too large |
| RowColMain.StoiReadsNegative | rowcolmatch/main.cpp:39-44 | a minus sign before the digits of k reads back as −k, when it fits |
| RowColMain.StoiSkipsSpaces | rowcolmatch/main.cpp:39-44 | leading white space does not change what is read |
| RowColMain.ReadsDigits | rowcolmatch/main.cpp:39-44 | the run of digits is read up to the first non-digit |
| RowColMain.SetOption | rowcolmatch/main.cpp:39-44 | an option with a value leaves the file name and the quiet flag alone |
| RowColMain.Step | rowcolmatch/main.cpp:36-49 | one turn consumes one or two arguments; it sets the file name only from an argument that does not start with `-` |
| RowColMain.Configure | rowcolmatch/main.cpp:23-55 | a command line that is accepted has a file name |
| RowColMain.ParseArgs | rowcolmatch/main.cpp:23-55 | the argument loop gives what `Configure` gives: the usage error, a `stoi` failure, or the settings |
| RowColMain.ParseConcat | rowcolmatch/main.cpp:35-50 | arguments are applied left to right: once a prefix parses, the rest starts from its settings |
| RowColMain.StepConcat | rowcolmatch/main.cpp:35-50 | a turn looks only at the arguments it consumes |
| RowColMain.LastFileNameWins | rowcolmatch/main.cpp:45 | a later file name replaces an earlier one |
| RowColMain.OptionOverwrites | rowcolmatch/main.cpp:39-44 | a later option overwrites its own setting and leaves the others alone |
| RowColMain.DanglingOption | rowcolmatch/main.cpp:39-44 | an option that needs a value, given last, stops the run |
| RowColMain.UnknownOptionRejected | rowcolmatch/main.cpp:46-49 | any other argument that starts with `-` stops the run with the usage message |
| RowColMain.ParsedFileName | rowcolmatch/main.cpp:45 | the file name is the initial one or a non-dash argument |
| RowColMain.FileNameOnly | rowcolmatch/main.cpp:28-32 | with only a file name, every other setting takes its default |
| RowColMain.OutputName | rowcolmatch/main.cpp:110-111 | the output path is the file name less its last four characters, then `_matched.csv` |
| RowColMain.CsvOutputName | rowcolmatch/main.cpp:110-111 | `stem.csv` becomes `stem_matched.csv` |
| RowColMain.Filter | rowcolmatch/main.cpp:60-65 | filtering never lengthens the data |
| RowColMain.FilterMembers | rowcolmatch/main.cpp:60-65 | the filter keeps exactly the accepted half-hits |
| RowColMain.FilterAppend | rowcolmatch/main.cpp:60-65 | filtering keeps order: filtering two runs is filtering each in turn |
| RowColMain.FilterHits | rowcolmatch/main.cpp:60-65 | the filter loop keeps the accepted half-hits in order (also rowcolmatch/main.cpp lines 79-83, rowcolmatch/astropix3rowcol.cpp lines 108-112) |
| RowColMain.MatchGroups | rowcolmatch/main.cpp:75-108 | the layer and chip loops match each group and append the matches, layer by layer and chip by chip (also rowcolmatch/astropix3rowcol.cpp lines 114-148) |
| RowColMain.MatchLayer | rowcolmatch/main.cpp:78-107 | the chip loop of one layer |
| RowColMain.AllMatchesFrom | rowcolmatch/main.cpp:77-78 | every output match comes from one layer and one chip in range |
| RowColMain.LayerMatchesFrom | rowcolmatch/main.cpp:78 | every match of a layer comes from one chip in range |
| RowColMain.GroupedMatchSound | rowcolmatch/main.cpp:77-108 | every output match is the pair of a kept row and a kept column of the same layer and chip, both in range, accepted by the tests |
| RowColMain.RowColMatchMain | rowcolmatch/main.cpp:22-116 | the driver gives what `Run` specifies: the output name and the matches, or the failure |
| RowColMain.RunSound | rowcolmatch/main.cpp:22-116 | each match of a run has layer and chip in range, row and column below 35, and differences inside the configured windows |
| RowColMain.AstropixMain | rowcolmatch/astropix3rowcol.cpp:90-153 | fewer than two arguments is the usage error; otherwise 3 layers of 4 chips, location filter, windows 0..1 and 6..15, on the half-hits given |
| RowColMain.AstropixNoData | rowcolmatch/astropix3rowcol.cpp:103-112 | with the source's `data` left empty, the run matches nothing |

## Left out

- The JSON codec of the file header is a parameter. It is a `dumps`/`loads` pair, and the header round trip assumes `loads` inverts `dumps` on the content.
- The readout timestamp from `time.time_ns()` is an input; `latch_ns` is not modelled. The `timestamp is None` default path of the constructor is left out.
- File system access, `open`, logging, `tqdm` progress bars, `print`, timing, and `count_lines` are not modelled. Files are byte sequences or text, and output files are the text written.
- SourceDecoder.DecodeLog and QuadDecoder.DecodeQuadLog: the CSV file the log decoders write (`New_Source_Decoder.py` lines 58-66 and 108-109, `Quad_Chip_Decoder.py` lines 89-93 and 136-138) is not modelled: neither the output path `full_file_name.replace('.log','.csv')`, nor the fixed header row, nor the text formatting of each row with `','.join(str(x) ...)`. The output is the sequence of rows written, as values; for the quad decoder it includes the rows written before a line raises.
- The struct format `'I'` in the file header is native-order; the model takes little-endian, 4 bytes.
- `tot_us` and every other floating-point column are not modelled. Neither are the percentages the C++ driver prints.
- The `quiet` flag is parsed and stored. It only silences printing, so nothing else depends on it.
- `__str__`, `_repr`, `_format_attributes`, `text_header` and `to_csv` are left out. The CSV converter of `_convert_apxdf` is a parameter.
- `apxdf_to_csv` is not modelled separately. It is `_convert_apxdf` with a fixed converter and header line.
- `__init_subclass__` is not modelled; only the AstroPix4 readout class exists in the model.
- Reading and writing CSV files (`rowcolmatch/csv_io.cpp`) is left out. The drivers take their half-hits as input, and the output file is returned as its path and the matches.
- `mkplots` and the `__main__` block of `astropix3rowcol.py` are not modelled.
- The decoding of AstroPix3 and AstroPix4 hits inside `New_Source_Decoder.py` calls the `decode_copy` module, which is not part of this model. It is a parameter `decode`. Being total, that parameter also stands for `binascii.unhexlify` at `New_Source_Decoder.py` line 101, so the `binascii.Error` it raises on an odd-length or non-hex string is not modelled.
- Chip versions other than 3 and 4 are not modelled in `New_Source_Decoder.py`. There the source fails with unbound variables.
- The test samples 2, 3, 4 and 6 (truncated and corrupted readouts) are not stated; only samples 0, 1 and 5 are.
- `str.isdigit` accepts Unicode digits; `SourceDecoder.IsDataLine` accepts ASCII digits only.
- `Quad_Chip_Decoder.py` on a line with no `0a01` header: NumPy indexing raises there, and the model returns the error together with the rows already written.
- A line with no `INFO:` makes the quad decoder raise `IndexError`; the model returns an error together with the rows already written.
- RowColMain.Step: `argv[++i]` past the last argument is undefined behaviour in C++. The model stops with `MissingValue`.
- RowColMain.Stoi: a leading `+` sign is accepted as `std::stoi` does. Locale-dependent white space beyond the C locale is not modelled.
- RowColMain.RunSound: the differences `x - y` are taken on unbounded integers. The C++ `int` subtraction can overflow for extreme timestamps or ToT values, and that is not modelled.
- RowColMain.OutputName: for a file name shorter than four characters, `size() - 4` wraps around to a huge unsigned count, which `substr` clamps; the whole name is kept, in C++ as in the model.
- The layer and chip counts come from the command line as any `int`; negative counts give no groups, as the loops do.
- RowCol.MatchRowsCols: the Python version works on a pandas frame indexed by label. The model uses positions, as the C++ versions do.
- RowColMain.AstropixMain: in `rowcolmatch/astropix3rowcol.cpp` lines 103-104, `data` is declared and never filled; only a comment stands for reading the CSV, so the program as written matches nothing (`RowColMain.AstropixNoData`). The model takes those half-hits as a parameter.
- QuadDecoder.HexValue: Unicode white space and non-ASCII decimal digits, which Python's `int` also accepts, are not modelled; white space is the six ASCII characters space, tab, line feed, vertical tab, form feed and carriage return.
- QuadDecoder.ByteLineSound: as written (line 127) the carry can be a complete hit or longer, so only the corrected check promises an incomplete carry; both checks are modelled, selected by `EndCheck`.
- `FileIO.AstroPixBinaryFile.Open`: the context manager is modelled as `Open` and `Close`. The `with` block between them is the caller.

## Findings

| source | as written | input that shows it | evidently intended | confidence | as-written member | corrected member |
|---|---|---|---|---|---|---|
| Quad_Chip_Decoder.py:127 | the last header is carried to the next line when `header + 22 > len(no_ff_list)`: the number of pieces left by the `ffff` split, not the length of the text | a line whose cleaned text is the single complete 22-character hit `0a01060000000000000000`: there is one piece, so `0 + 22 > 1`, and the complete hit is carried instead of decoded | carry the last header only when its hit runs past the end of the text, `header + 22 > len(no_ff_string)` | not executed | QuadDecoder.LoneHitLine | QuadDecoder.CutAtEnd |
