# Proofs about a photo library

A self-hosted photo library mirrors a remote photo timeline. This project models its most intricate
parts in Dafny and proves what they are for. Each Dafny file is one module.

| part | files |
|---|---|
| QR symbol for the second login factor: Reed-Solomon code over the field of 256 elements, segments, padding, interleaving, placement | `Gf256.dfy`, `ReedSolomon.dfy`, `QrBuffer.dfy`, `Segments.dfy`, `QrData.dfy`, `QrBlocks.dfy`, `QrPlacement.dfy`, `QrSymbol.dfy` |
| The image of the symbol as a data URL: LZW raster, GIF file, base64 streams, the versions and their block tables, and the whole way from segments to URL | `GifRaster.dfy`, `Base64.dfy`, `GifImages.dfy`, `QrImages.dfy`, `QrVersions.dfy`, `QrTable.dfy` |
| Bit strings in both orders, used by all of these | `Bits.dfy` |
| Rate limiter of the bridge | `TokenBucket.dfy` |
| Two-phase deletion | `Photos.dfy`, `Deletion.dfy` |
| Album aggregates, and the store methods on photos and albums | `Albums.dfy`, `Store.dfy` |
| People and faces | `People.dfy`, `PeopleStore.dfy` |
| Ordered parallel download of a file's blocks | `BlockDownload.dfy` |
| Top-k kernels | `TopK.dfy`, `FaceSearch.dfy` |
| Sidecar files shared between processes | `Sidecar.dfy` |
| Small helpers | `Sets.dfy`, `Wrappers.dfy` |

`dafny verify dfyconfig.toml` checks everything.

## How the source is modelled

Where the source changes state step by step, a class or a method with loops does the same here and is
proved against a specification: a function of the old state, a bit string, a state machine. The
theorems are about those specifications.

- Bit operators of the QR and GIF code act on disjoint bit ranges; they are written as arithmetic, and
  32-bit shift buffers that are never masked are reduced modulo 2^32.
- Unset array slots behave as 0 in the polynomials. `multiply` and `mod` leave a never-written leading
  slot in place where a zero would be stripped; after padding to the error correction length there is
  no difference. An exception is a result value, and its exact condition is part of the contract:
  `glog(0)` throws from 255 error correction symbols a block on, and the tables stay at 30.
- The rate limiter's clock is real-valued. Every reading is a parameter, two per call where the code
  reads twice, so the clock may repeat or step back. Times of timers are exact.
- A database transaction is one function on tables. The deletion protocol's run interleaves the scan's
  transactions with the pipeline's in every way. `int(time.time())` readings are integers given from
  outside. Rows of a query come in any order.
- Foreign keys are enforced as the connection sets them: a write that would leave a face pointing to a
  missing person fails and is rolled back.
- Whatever other downloads do while one await is pending is a nondeterministic choice, and so is the
  outcome of a write. A write takes all of a chunk or nothing.
- Similarities and embeddings are given values. A heap and a partial sort do what their library
  promises; ties come in any order.

## Where the code differs from what it says

- Token windows. "At most capacity + rate * length in any window" holds unless the clock, between two
  grants of the window, is read later than the first by more than the window's length
  (`TokenBuckets.NoReturnBound`); with such readings it fails for some bucket
  (`TokenBuckets.ReturnBreaks`). For every clock the bound runs to the latest reading instead
  (`TokenBuckets.WindowBound`).
- GIF end code. The encoder does not look at the code width once more before the end code. The pixels
  always decode; the end code does not exactly when the table just fills the code width and the bits
  end at a byte boundary (`GifRaster.EndCodeReadable`).
- GIF sizes. The header keeps 16 bits of each size, unchecked: a picture reads back if and only if both
  are below 65536 (`GifImages.GifRoundTrip`).
- Deletion. Confirming comes before the upsert that reclaims, so a scan that aborts in between leaves
  a listed row deleted until the next complete scan (`Deletion.AbortAfterConfirm`), and a row
  without metadata is not reclaimed. The statements are therefore about completed scans and rows with
  metadata. The threshold counts new uids in the listing's favour (`Deletion.ThresholdBounds`).
- Albums. The comment on resetting an emptied album says that it then disappears from the list of
  albums; it keeps a count of 0, which the list's filter on missing counts lets through. An album row
  inserted while counted photos already list it has no count and is not dirty, so an incremental sync
  leaves it uncounted until the next rescan or write (`Albums.AggregatesRight`).
- Bulk assignment recounts only the new owner: exact condition in `People.BulkAssignKeepsIff`.
- Bulk merge. With sources but none of them alive it still recounts the target, where single merges
  would do nothing; with true counts that is no difference.
- Sidecar. The uid column is as wide as the most characters plus one, but holds bytes: a uid with
  enough multi-byte characters makes the write fail (`Sidecar.EncodeUids`).

## Model

| member | source | states |
|---|---|---|
| Gf256.QrMath.constructor | app/src/static/qrcode.js:1137-1149 | The exp and log tables the constructor fills are the powers of alpha and their logarithms. |
| Gf256.FillExp | app/src/static/qrcode.js:1138-1146 | The recurrence over earlier entries (i-4, i-5, i-6, i-8) computes every power of alpha up to 255. |
| Gf256.FieldPolynomial | app/src/static/qrcode.js:1137-1149 | alpha is 2, and x^8 + x^4 + x^3 + x^2 + 1 is 0: the field of the QR standard, and no other of that size. |
| Gf256.FillLog | app/src/static/qrcode.js:1147-1149 | The inverse table gives each nonzero byte the exponent below 255 whose power it is. |
| Gf256.QrMath.Glog | app/src/static/qrcode.js:1153-1160 | Throws exactly on 0; otherwise the one exponent below 255 that gives the argument. |
| Gf256.QrMath.Gexp | app/src/static/qrcode.js:1162-1173 | alpha to any integer power, negative and large exponents included. |
| Gf256.NoShortPeriod | app/src/static/qrcode.js:1137-1149 | No power of alpha from the 1st to the 254th is 1. |
| Gf256.AlphaInjective | app/src/static/qrcode.js:1137-1149 | The 255 table entries are pairwise different. |
| Gf256.LogExists | app/src/static/qrcode.js:1147-1149 | Every nonzero byte is a power of alpha, so the log table has no hole. |
| Gf256.TableProduct | app/src/static/qrcode.js:1216-1216 | gexp(glog a + glog b) is the product of polynomials modulo x^8+x^4+x^3+x^2+1, computed by shift and add. |
| Gf256.TimesAssociates | app/src/static/qrcode.js:1216-1216 | The table product is associative. |
| Gf256.TimesDistributes | app/src/static/qrcode.js:1216-1216 | The table product distributes over the exclusive or the code adds with. |
| Gf256.OverTimes | app/src/static/qrcode.js:1229-1237 | The quotient the division step forms with logarithms undoes the product: the bytes are a field. |
| ReedSolomon.QrPolynomial | app/src/static/qrcode.js:1182-1198 | Leading zeros are dropped and shift zeros appended. |
| ReedSolomon.Multiply | app/src/static/qrcode.js:1210-1221 | Throws exactly when one factor has a zero coefficient; otherwise the stripped product of the polynomials. |
| ReedSolomon.Mod | app/src/static/qrcode.js:1223-1242 | Terminates, throws exactly when a division step meets a divisor with a zero coefficient, and otherwise gives the remainder (up to leading zeros). |
| ReedSolomon.ErrorCorrectPolynomial | app/src/static/qrcode.js:966-972 | The product of (x + alpha^i) for i below the length; the logarithm of zero is met exactly for lengths past 255. |
| ReedSolomon.GeneratorHasNoZero | app/src/static/qrcode.js:966-972 | Up to degree 254 no coefficient of a generator is zero, by the distance of the code. |
| ReedSolomon.FullGenerator | app/src/static/qrcode.js:966-972 | At degree 255 it is x^255 + 1, so 254 is exact. |
| ReedSolomon.ErrorCorrection | app/src/static/qrcode.js:292-300 | The zero-padded remainder: data followed by it is the code word. Fails exactly for a length past 255, or of 255 with data that is not all zero. |
| ReedSolomon.DivisionIsExact | app/src/static/qrcode.js:1223-1242 | Dividend = quotient times divisor + remainder, for every divisor with a nonzero leading coefficient. |
| ReedSolomon.CodewordDivisible | app/src/static/qrcode.js:292-300 | Data codewords followed by the padded remainder are a multiple of the generator, for every block and length. |
| ReedSolomon.GeneratorRoot | app/src/static/qrcode.js:966-972 | alpha^i is a root of the generator exactly as the product form promises. |
| ReedSolomon.SyndromesVanish | app/src/static/qrcode.js:292-300 | Evaluating a code word at alpha^i gives 0 for every i below the error correction length. |
| ReedSolomon.SyndromesDetect | app/src/static/qrcode.js:292-300 | A nonzero word of at most 255 symbols whose first n syndromes vanish has more than n nonzero symbols. |
| ReedSolomon.CorruptionDetected | app/src/static/qrcode.js:292-300 | Changing between 1 and n symbols of a code word always leaves a nonzero syndrome. |
| QrBuffer.QrBitBuffer.PutBit | app/src/static/qrcode.js:1586-1598 | Appends one bit to the bits the byte array spells; at most 7 spare bits, all zero. |
| QrBuffer.QrBitBuffer.Put | app/src/static/qrcode.js:1576-1580 | Appends the low `len` bits, most significant first, for any bits already in the buffer. |
| Segments.NumericRoundTrip | app/src/static/qrcode.js:1622-1648 | The 10, 7 and 4 bit groups of any digit string parse back to it, with anything following. |
| Segments.AlphanumericRoundTrip | app/src/static/qrcode.js:1679-1718 | The 11 and 6 bit groups of any string over the 45 characters parse back to it, with anything following. |
| Segments.BytesRoundTrip | app/src/static/qrcode.js:1743-1747 | Byte segments parse back to their bytes. |
| Segments.CodeRoundTrip | app/src/static/qrcode.js:1697-1718 | Every character's code leads back to the character. |
| Segments.AlphabetIsWhole | app/src/static/qrcode.js:1697-1718 | The writer accepts all 45 characters with the values of the standard, and all ten digits. |
| Segments.WriteNumeric | app/src/static/qrcode.js:1622-1655 | Appends exactly the numeric bits, or fails exactly on a character that is not a digit. |
| Segments.WriteAlphanumeric | app/src/static/qrcode.js:1679-1718 | Appends exactly the alphanumeric bits, or fails exactly on a character outside the alphabet. |
| Segments.WriteBytes | app/src/static/qrcode.js:1743-1747 | Appends the bytes, eight bits each. |
| Segments.Write | app/src/static/qrcode.js:338-343 | Dispatch on the segment kind: the payload bits, or the failure of that kind. |
| Segments.SegmentRoundTrip | app/src/static/qrcode.js:338-343 | Mode, count and payload parse back to the segment for a reader with its own table of count field widths by mode and version range, if the count fits the field of that version. |
| Segments.SegmentsRoundTrip | app/src/static/qrcode.js:338-343 | A list of segments followed by a terminator, or by fewer than four bits, parses back to the list. |
| QrData.WriteSegments | app/src/static/qrcode.js:338-343 | The buffer holds the bits of all segments, or there is an error other than overflow, exactly when some segment cannot be written. |
| QrData.Pad | app/src/static/qrcode.js:359-381 | Terminator if it fits, zeros to the byte boundary, then the two pad bytes alternately: the bits become the specified message of exactly the capacity. |
| QrData.CreateCodewords | app/src/static/qrcode.js:334-381 | Fails exactly on an unwritable segment or an overflow; otherwise capacity-many bytes that spell the message, with 236 and 17 in turn from the first whole byte past its end. |
| QrData.MessageShape | app/src/static/qrcode.js:359-381 | The message has exactly the capacity, starts with the segment bits, and goes on with a valid end. |
| QrData.PaddingIs | app/src/static/qrcode.js:366-381 | From the first whole byte after the terminator on, the bytes are 236 and 17 in turn. |
| QrData.MessageParses | app/src/static/qrcode.js:338-381 | The data codewords read back as the segments, whenever their counts fit their fields. |
| QrData.CapacityBoundsCount | app/src/static/qrcode.js:351-357 | A segment that passes the overflow check has a count that fits its field, so put() never drops count bits. |
| QrData.NoOverflowParses | app/src/static/qrcode.js:332-381 | Segments that pass the overflow check read back, for every version and capacity of that version. |
| QrData.InterleaveRoundTrip | app/src/static/qrcode.js:311-318 | De-interleaving recovers every block, for blocks of any lengths. |
| QrData.InterleaveLength | app/src/static/qrcode.js:303-327 | The interleaved stream is as long as the blocks together. |
| QrBlocks.MakeBlocks | app/src/static/qrcode.js:269-301 | Every data block is its slice, every error correction block completes its code word, and the two maxima are right; fails exactly when a block asks for more than 255 symbols, or for 255 with data that is not all zero. |
| QrBlocks.InterleaveInto | app/src/static/qrcode.js:311-318 | The index arithmetic writes exactly the interleaving of the parts. |
| QrBlocks.CreateBytes | app/src/static/qrcode.js:267-330 | The output is data blocks then error correction blocks, interleaved, and has as many symbols as the block table totals; there always is one if no block asks for 255 symbols or more. |
| QrBlocks.ArrangeRoundTrip | app/src/static/qrcode.js:311-327 | Data and error correction blocks are recovered from the final stream. |
| QrBlocks.SymbolRoundTrip | app/src/static/qrcode.js:332-384 | The codeword stream reads back as the segments: de-interleave, join, parse. |
| QrBlocks.CreateData | app/src/static/qrcode.js:332-384 | Fails exactly on an unwritable segment or overflow, if no block asks for 255 symbols or more; otherwise there is a stream, and it reads back as the segments. |
| QrPlacement.PathCovers | app/src/static/qrcode.js:216-265 | In an odd grid the zig-zag visits every module outside column 6 exactly once. |
| QrPlacement.WalkIsZigZag | app/src/static/qrcode.js:216-265 | The loops visit the modules in the order of a walk given by its steps alone: from the bottom right corner, left in the pair, then one row on, and at an edge two columns left with the direction reversed, past column 6. |
| QrPlacement.MaskInverts | app/src/static/qrcode.js:226-226 | Each of the eight mask functions is the condition the standard gives for its pattern. |
| QrPlacement.FillTouches | app/src/static/qrcode.js:232-253 | Reserved modules keep their value and no module outside the path changes. |
| QrPlacement.FillReadsBack | app/src/static/qrcode.js:232-253 | Reading the empty modules along the path with the mask undone gives the data bits, then zeros; the reader has its own mask table. |
| QrPlacement.ZigZagPlaces | app/src/static/qrcode.js:216-265 | For odd sizes from 7 with column 6 reserved: all empty modules filled, reserved ones untouched, data read back along the reader's own walk, for every mask. |
| QrPlacement.MapData | app/src/static/qrcode.js:216-265 | The loops with their row, column and bit counters place exactly the specified grid. |
| QrSymbol.ScanReads | app/src/static/qrcode.js:216-330 | A scan of the placed modules, with its own walk and masks, reads the codewords back. |
| QrSymbol.MakeSymbol | app/src/static/qrcode.js:216-384 | From segments to modules and back: a symbol is made exactly if the segments are writable and fit, and scans to them, for every mask and every block table within the capacity and below 255 symbols a block; for odd grids from 7 with column 6 reserved and room for the codewords. |
| GifRaster.BitOutputStream.Write | app/src/static/qrcode.js:2100-2116 | Appends the low bits least significant first; refuses exactly a number too wide for its length. |
| GifRaster.BitOutputStream.Flush | app/src/static/qrcode.js:2118-2122 | The last byte is filled up with fewer than eight zero bits. |
| GifRaster.LzwTable.Add | app/src/static/qrcode.js:2196-2202 | Fails exactly on a duplicate key, otherwise numbers the key next. |
| GifRaster.LzwTable.Contains | app/src/static/qrcode.js:2212-2214 | True exactly for the keys added. |
| GifRaster.LzwTable.IndexOf | app/src/static/qrcode.js:2208-2210 | The number of the key. |
| GifRaster.EmittedFit | app/src/static/qrcode.js:2145-2182 | Every code fits the width it is written with, and no width exceeds 12 bits: the length error cannot occur. |
| GifRaster.DecodeFollowsEncode | app/src/static/qrcode.js:2153-2179 | A decoder one table entry behind the encoder reads every code, those used as soon as they exist included, stops growing with it at 4095 entries, and ends one bit wider exactly when the last code filled the width. |
| GifRaster.RasterDecodes | app/src/static/qrcode.js:2127-2187 | Every image over the root alphabet decodes to exactly its pixels. |
| GifRaster.StartsWithClear | app/src/static/qrcode.js:2139-2147 | The raster starts with the clear code. |
| GifRaster.EndCodeReadable | app/src/static/qrcode.js:2179-2184 | The end code is found if and only if the table does not just fill the width of the last code, or the raster does not end at a byte boundary. |
| GifRaster.GetLzwRaster | app/src/static/qrcode.js:2127-2187 | The loop writes exactly the specified codes; the bytes decode to the pixels. |
| GifRaster.SubBlocksRoundTrip | app/src/static/qrcode.js:2075-2085 | The sub-blocks join to the raster and nothing after them is consumed. |
| Base64.CharRoundTrip | app/src/static/qrcode.js:1892-1907 | Every 6-bit value has its own character, none of them white space or the pad. |
| Base64.Alphabet | app/src/static/qrcode.js:1892-1907 | Every 6-bit value has the character of table 1 of RFC 4648. |
| Base64.Base64EncodeOutputStream.WriteByte | app/src/static/qrcode.js:1909-1919 | With a buffer that is never masked, the characters and the bits left spell the bytes written. |
| Base64.Base64EncodeOutputStream.Flush | app/src/static/qrcode.js:1921-1937 | The finished text is the encoding of section 4 of RFC 4648. |
| Base64.GroupsOfFour | app/src/static/qrcode.js:1921-1937 | The text has four characters for every three bytes or part of them. |
| Base64.Base64DecodeInputStream.ReadByte | app/src/static/qrcode.js:1958-2003 | One read does what the bit-level reader does on the bits at hand and the text left, every error included. |
| Base64.DecodesEncoding | app/src/static/qrcode.js:1958-1986 | An encoding with any white space in it reads back as the bytes and then the end of the stream, however often it is read. |
| Base64.RoundTrip | app/src/static/qrcode.js:1879-2006 | The encoder's own text reads back as the bytes. |
| GifImages.GifImage.SetPixel | app/src/static/qrcode.js:2020-2022 | Exactly the pixel at y * width + x changes; it is inside the array for every x and y of the picture. |
| GifImages.GifImage.WriteRaster | app/src/static/qrcode.js:2073-2085 | The loop appends exactly the sub-blocks of the raster, never with a length of 0. |
| GifImages.GifImage.Write | app/src/static/qrcode.js:2024-2090 | The file has the specified layout around a raster that decodes to the pixels. |
| GifImages.GifRoundTrip | app/src/static/qrcode.js:2024-2090 | The file reads back as the picture, palette included, if and only if both sizes are below 65536: the header keeps 16 bits of each. |
| GifImages.PixelAt | app/src/static/qrcode.js:2020-2022 | Drawing row by row puts every pixel where a reader looks for it. |
| GifImages.Draw | app/src/static/qrcode.js:2222-2228 | The nested loops fill the array with the picture. |
| GifImages.UrlReads | app/src/static/qrcode.js:2230-2240 | A reader of the data URL recovers every byte of the file. |
| GifImages.CreateDataUrl | app/src/static/qrcode.js:2222-2241 | The data URL reads back as the picture drawn if and only if both sizes are below 65536. |
| QrImages.CreateDataUrl | app/src/static/qrcode.js:557-575 | The URL of a symbol reads back as its picture, for any cell size and margin that keep the picture below 65536 pixels a side. |
| QrImages.Defaults | app/src/static/qrcode.js:557-563 | A module is two pixels wide unless a size is given, and the margin four modules unless one is given. |
| QrImages.ModuleShown | app/src/static/qrcode.js:566-571 | Every pixel of a module is black for a dark module and white otherwise. |
| QrImages.MarginIsWhite | app/src/static/qrcode.js:566-574 | Every pixel around the symbol is white. |
| QrImages.SampledShades | app/src/static/qrcode.js:566-571 | Sampling every module at any one of its pixels recovers which modules are dark. |
| QrImages.MakeDataUrl | app/src/static/qrcode.js:216-575 | From segments to a data URL and back: a URL is made exactly if the segments are writable and fit; read as base64, as a GIF, module by module and as a symbol, it gives the segments, for such grids and pictures below 65536 pixels a side. |
| QrVersions.GetRsBlocks | app/src/static/qrcode.js:1510-1552 | The loops expand the row of the version and level; an exception exactly for versions outside 1 to 40. |
| QrVersions.BlocksFit | app/src/static/qrcode.js:1253-1500 | Every row of the table has at most 30 error correction codewords a block, a capacity its version can count, and as many codewords as the modules left by the function patterns hold. |
| QrVersions.LevelsOrdered | app/src/static/qrcode.js:1253-1500 | In every version a higher correction level leaves less room for data. |
| QrTable.BlocksAreStandard | app/src/static/qrcode.js:1253-1552 | In every version and level the codewords are cut into the number of blocks of table 9 of the standard, evenly, with its number of error correction codewords in each. |
| QrVersions.ChooseVersion | app/src/static/qrcode.js:424-450 | The first version the segments fit is taken, and 40 untried if none below it does; fails exactly on an unwritable segment. |
| QrVersions.MakeVersionUrl | app/src/static/qrcode.js:332-384 | For every version and level, exactly the segments that fit become a data URL, and it reads back as the segments. |
| TokenBuckets.TokenBucket.constructor | bridge/src/rateLimit.ts:40-52 | A rate of zero or less disables the bucket; otherwise it starts full, with the given or the default burst. |
| TokenBuckets.NewBucket | bridge/src/rateLimit.ts:40-52 | A new bucket is open, idle and full, with the rate per millisecond and the burst given. |
| TokenBuckets.DefaultBurst | bridge/src/rateLimit.ts:45-47 | Without a burst the capacity is the least whole number of at least one that covers two seconds. |
| TokenBuckets.TokenBucket.Refill | bridge/src/rateLimit.ts:58-64 | Tokens for the time since the last refill, up to the capacity; nothing when the clock did not move forward. |
| TokenBuckets.TokenBucket.ScheduleWake | bridge/src/rateLimit.ts:77-83 | One wake at a time, due when a token is there and the pause is over, at least 1 ms ahead. |
| TokenBuckets.ScheduledIsEarliest | bridge/src/rateLimit.ts:77-83 | No time at least 1 ms ahead, past the pause, with a token there is before the one the wake is due at. |
| TokenBuckets.TokenBucket.RescheduleWake | bridge/src/rateLimit.ts:89-95 | Drops the pending wake and schedules it against the current state. |
| TokenBuckets.TokenBucket.WakeHead | bridge/src/rateLimit.ts:97-109 | Lets the head through if a token is there and no pause is on, and schedules the next wake while someone is parked. |
| TokenBuckets.WakeOutcome | bridge/src/rateLimit.ts:97-109 | A wake lets the head through exactly if no pause is on and a token is there. |
| TokenBuckets.TokenBucket.Acquire | bridge/src/rateLimit.ts:111-130 | Grants, parks, refuses or rejects as the code does; a newcomer never overtakes a parked caller. |
| TokenBuckets.CallOutcome | bridge/src/rateLimit.ts:111-130 | When a call is let through, refused, parked or turned away, each exactly, in terms of the tokens due by its reading and a queue of a hundred. |
| TokenBuckets.TokenBucket.Close | bridge/src/rateLimit.ts:139-147 | Every parked caller is rejected, in order, and no wake stays pending. |
| TokenBuckets.ClosedForGood | bridge/src/rateLimit.ts:111-147 | Over any run a closed bucket stays closed, empty and without a wake. |
| TokenBuckets.TokenBucket.NoteRetryAfter | bridge/src/rateLimit.ts:149-157 | The pause is extended, never shortened, and the pending wake moved. |
| TokenBuckets.StepKeeps | bridge/src/rateLimit.ts:77-157 | Every method keeps: tokens between 0 and a capacity that is not negative, and a wake pending exactly while someone is parked. |
| TokenBuckets.PauseRespected | bridge/src/rateLimit.ts:97-157 | No token at a reading before the pause ends; the pause only moves later, by at least what was asked and one refill. |
| TokenBuckets.PauseIsLeast | bridge/src/rateLimit.ts:149-157 | A pause ends no later than any time that is past the pause already on, the reading, the seconds asked for and one refill. |
| TokenBuckets.PausesAre | bridge/src/rateLimit.ts:149-157 | Over any run the pause is the latest of those asked for, counted from their readings and seconds. |
| TokenBuckets.NoGrantDuringPause | bridge/src/rateLimit.ts:97-157 | Over any run, no grant comes at a reading before the end of a pause asked for earlier. |
| TokenBuckets.TicksAccount | bridge/src/rateLimit.ts:58-157 | The refills and grants of an event are all it does to the tokens, and no grant is made without a token. |
| TokenBuckets.WindowBound | bridge/src/rateLimit.ts:58-121 | In any run with any clock, a window grants at most capacity + rate * (latest reading up to its last grant - start of the window), counted from the last refill. |
| TokenBuckets.VisitsBound | bridge/src/rateLimit.ts:58-121 | It also grants at most capacity + rate * length for each time the clock comes into it, not counting returns without a new latest reading past its end. |
| TokenBuckets.NoReturnBound | bridge/src/rateLimit.ts:58-121 | It grants at most capacity + rate * length if no reading between two of its grants is later than the first by more than its length; steps back as such do no harm. |
| TokenBuckets.ReturnBreaks | bridge/src/rateLimit.ts:58-121 | That condition is exact: for any readings a, b, c with a and c in the window and b that much later than a, a new bucket called at a, b and c grants more. |
| TokenBuckets.BurstIsWholeTokens | bridge/src/rateLimit.ts:40-130 | A new bucket lets exactly as many calls through at once as it holds whole tokens. |
| TokenBuckets.FirstInFirstOut | bridge/src/rateLimit.ts:97-147 | Over any run, those who left the queue followed by those in it are those who were in it followed by those parked since. |
| TokenBuckets.RefillTwice | bridge/src/rateLimit.ts:58-64 | Refilling on the way makes no difference to a later refill. |
| TokenBuckets.RunPrompt | bridge/src/rateLimit.ts:77-157 | In every on-time run, with two readings an event, a pending wake finds a token when it fires and is at most one delay past the pause and the last reading. |
| TokenBuckets.ParkedCallerGranted | bridge/src/rateLimit.ts:77-130 | A caller parked as number k is let through by max(reading its wake is scheduled from, resumeAt) + k * max(1 ms, 1/rate), plus the time that passes within wakes. |
| TokenBuckets.QueuedSinceConstruction | bridge/src/rateLimit.ts:40-157 | The same for every caller that parks after any on-time run from the constructor on, with the end of the pause computed from the readings and seconds of the pauses asked for. |
| TokenBuckets.SmallBucketNeverGrants | bridge/src/rateLimit.ts:40-52 | Below a capacity of one token nothing is ever granted. |
| Photos.UpsertReclaims | app/src/store.py:608-629 | After an upsert every mentioned row exists and is active; other rows are as before. |
| Photos.UpsertAllSyncs | app/src/store.py:608-629 | Every row the items name is synced with the last of them: a staged or deleted one can be claimed for download at once, with no retry and no deletion time left; an active one keeps its status; others are as they were. |
| Photos.StageStages | app/src/store.py:665-700 | Exactly the active ones of the given rows are staged, with this time. |
| Photos.ConfirmDeletes | app/src/store.py:703-733 | Exactly the rows staged at least the grace ago are deleted. |
| Photos.DownloadedAndDone | app/src/store.py:873-949 | A new photo that is claimed, downloaded, processed and finished is done, with its thumbnail. |
| Photos.FetchedInFull | app/src/store.py:960-980 | Or it is fetched in full once more and done then. |
| Photos.ClaimsTake | app/src/store.py:864-980 | A claim takes exactly the photos waiting for it, and a second claim in a row takes nothing. |
| Photos.ClaimsComeBack | app/src/store.py:894-911 | What a claim takes comes back when it is released, or after a restart. |
| Photos.OtherSteps | app/src/store.py:736-771 | Backing off, failing, backfilling, purging and resetting change exactly the rows they are for. |
| Photos.ErrorsRetried | app/src/indexer.py:494-506 | After a completed scan exactly the failed rows with fewer than five retries are new again. |
| Photos.PipelineNeverStages | app/src/store.py:864-1043 | No pipeline statement stages or deletes a row or touches the stage time of one that stays staged. |
| Deletion.StepKeeps | app/src/indexer.py:425-506 | Every transaction of the scan and the pipeline, and every abort, keeps the statements about staged and deleted rows. |
| Deletion.DeletedWereMissing | app/src/indexer.py:425-492 | In every reachable state a deleted row was confirmed at least the grace after its staging, and no scan completed since then had it in its listing. |
| Deletion.ListedRowsAreActive | app/src/indexer.py:457-492 | Every row of a completed scan's listing for which there was metadata ends the scan neither staged nor deleted. |
| Deletion.StagingRecorded | app/src/store.py:665-700 | A row's stage entry changes exactly when a scan whose listing lacks it turns it from active to staged. |
| Deletion.ConfirmationRecorded | app/src/store.py:703-733 | A row's confirmation entry changes exactly when a scan turns it from staged to deleted. |
| Deletion.MarkStagesGone | app/src/indexer.py:457-467 | A scan stages exactly what it found missing, whatever the pipeline did in between. |
| Deletion.MissingIsStaged | app/src/indexer.py:425-467 | A scan that is not interrupted stages exactly the active rows its listing lacks, does nothing for an empty listing, and leaves the table alone exactly if the listing falls below the threshold. |
| Deletion.WholeScan | app/src/indexer.py:425-506 | What a scan that is not interrupted does to every row, for any batches: an active row it lacks is staged, one staged for the grace deleted, one with metadata synced, an error retried; it records as skipped exactly the new uids without metadata. |
| Deletion.ThresholdBounds | app/src/indexer.py:446-455 | A listing passes the threshold if and only if what it would stage is at most that share of the active rows plus the number of new uids. |
| Deletion.TruncatedListing | app/src/indexer.py:443-455 | A listing that only lacks rows stages at most the threshold's share of them. |
| Deletion.ThresholdAloneDoesNotBound | app/src/indexer.py:446-455 | For every library, a listing of nothing but other photos would stage all of it, exactly when it is long enough for the threshold. |
| Deletion.GraceSeconds | app/src/indexer.py:383-396 | The grace is a whole number of cycles of one of the two intervals, and positive. |
| Deletion.GraceIsLeast | app/src/indexer.py:383-396 | It covers the number of cycles of either interval, each taken as at least one. |
| Deletion.AbortLeavesPending | app/src/indexer.py:465-492 | Wherever a run aborts a scan, a listed row left staged or deleted was still to be upserted, or had no metadata. |
| Deletion.AbortAfterConfirm | app/src/indexer.py:465-492 | A scan that aborts after confirming leaves deleted exactly the rows that were, and those past the grace, whether its listing holds them or not. |
| Deletion.AbortedScanDeletesListed | app/src/indexer.py:465-492 | A run from the empty table in which this hits a listed row. |
| Albums.RecountAgrees | app/src/store.py:2561-2585 | One album's recount agrees with its photos if and only if it has none or one with a capture time of 0 or later. |
| Albums.RescanAgrees | app/src/store.py:2615-2637 | The full rescan's totals agree with the photos listed, in any row order. |
| Albums.UpsertSame | app/src/store.py:649-661 | An upsert that does not flag an album keeps everything its aggregates depend on if and only if it keeps the capture time of a photo the album counts. |
| Albums.PipeSame | app/src/store.py:913-949 | A pipeline step that does not flag an album and bypasses no hook changes nothing its aggregates depend on. |
| Albums.RecalcMirror | app/src/store.py:2541-2580 | Rebuilding one album's join rows keeps the join table a mirror of the album lists of counted photos. |
| Albums.RescanMirror | app/src/store.py:2627-2632 | So does the full rescan. |
| Albums.ChangeKeeps | app/src/store.py:581-733 | Every write, recount and rescan keeps every clean row exact and the join table a mirror, unless it retimes a counted photo without changing its albums or bypasses a hook. |
| Albums.AggregatesRight | app/src/store.py:2481-2679 | After any such run a clean row reports number, newest photo, first and last time of the photos that list it if and only if it has been counted or there is nothing to count. |
| Albums.ExactReports | app/src/store.py:2561-2585 | What the rows of the recount mean, written out from status, thumbnail and album list of the photos. |
| Albums.FlagsExactly | app/src/store.py:2481-2517 | A write flags exactly the albums whose photos it touches, and changes nothing else in an album row. |
| Albums.MirrorsExactly | app/src/store.py:636-661 | Join rows are rewritten for exactly the photo upserted or finished. |
| Albums.BypassGoesStale | app/src/store.py:864-1043 | A clean exact row that a pipeline step does not flag stays exact if and only if the step moves no photo of the album into or out of the counted ones. |
| Albums.RepeatedMentionCountsTwice | app/src/store.py:2610-2614 | For any album lists, the rescan's count for an album, and its whole row, is right if and only if every counted photo of it lists it once. |
| Store.PhotoStore.UpsertPhotos | app/src/store.py:581-594 | Chunk by chunk, the tables become those of upserting the rows one by one, and every row is synced with its last item; returns how many were new. |
| Store.PhotoStore.UpsertChunk | app/src/store.py:600-662 | Flagging the collected albums at the end of a chunk is the same as flagging them row by row. |
| Store.UpsertEachPhotos | app/src/store.py:603-629 | On the photo table the chunked upsert is the one the deletion protocol is proved for. |
| Store.PhotoStore.MarkAlbumsDirty | app/src/store.py:2481-2493 | Exactly the given albums are flagged, in chunks of any kind. |
| Store.PhotoStore.MarkDirtyForPhotos | app/src/store.py:2496-2517 | Exactly the albums the given photos list are flagged. |
| Store.PhotoStore.MarkPendingRemoval | app/src/store.py:665-700 | Exactly the active ones of the given rows are staged, their albums flagged, their number returned. |
| Store.PhotoStore.ConfirmDeletions | app/src/store.py:703-733 | Exactly the staged rows past the grace are deleted, their albums flagged, their number returned. |
| Store.PhotoStore.SetPhotoDone | app/src/store.py:913-949 | The row is done, its join rows rewritten and its albums flagged. |
| Store.PhotoStore.PurgeDeletedPhotoMedia | app/src/store.py:1076-1088 | Thumbnails are cleared and the albums of all given photos flagged. |
| Store.ClaimedOnce | app/src/store.py:873-891 | No photo is handed out by two claims, whatever the pipeline does in between, unless a step gave it back; a second claim gets exactly the new ones left. |
| Store.PhotoStore.CountRows | app/src/store.py:2561-2576 | The loop computes the running totals of the recount. |
| Store.PhotoStore.RecalcAlbum | app/src/store.py:2535-2585 | The album's row and join rows become those of a recount of what the query selects, in any row order. |
| Store.MentionStep | app/src/store.py:2605-2626 | One mention of an album updates the four dictionaries for that album only, to the totals of its listing so far. |
| Store.PhotoStore.CountMentions | app/src/store.py:2601-2626 | After both loops the dictionaries hold, for every album, the totals over exactly the photos that list it. |
| Store.PhotoStore.RescanAlbums | app/src/store.py:2588-2638 | The tables become those of recounting every album that a counted photo lists, others untouched. |
| Store.PhotoStore.SyncNames | app/src/store.py:2656-2661 | Exactly the new albums get an uncounted row; existing rows keep their aggregates. |
| Store.PhotoStore.SyncAlbums | app/src/store.py:2641-2679 | After an incremental sync every counted row agrees with a recount from the photos; after a full rescan every row of an album with counted photos does. |
| People.BulkAssignKeepsIff | app/src/store.py:1380-1396 | Bulk assignment keeps all cached counts true if and only if it takes no face from another person. |
| People.BulkAssignMoves | app/src/store.py:1380-1396 | Exactly the listed faces end with the person, and no one is gone. |
| People.AssignKeeps | app/src/store.py:1368-1377 | Moving one face keeps the counts of both people true, collecting the emptied one. |
| People.AssignMoves | app/src/store.py:1368-1377 | The face, and no other, ends with the person; everyone keeps name and covers; at most the former owner is gone, exactly if unnamed and left without a face. |
| People.UnassignKeeps | app/src/store.py:1399-1407 | So does releasing a face. |
| People.UnassignMoves | app/src/store.py:1399-1407 | The same, with the face ending with nobody. |
| People.CollectsNameless | app/src/store.py:1210-1227 | A person is collected exactly if it has neither a name nor a face. |
| People.InsertKeeps | app/src/store.py:1288-1304 | So does inserting one, assigned or not. |
| People.InsertAdds | app/src/store.py:1288-1304 | The new face is added with its owner, and no one is gone. |
| People.DeleteKeeps | app/src/store.py:1246-1263 | Deleting people releases their faces and keeps all other counts true. |
| People.DeleteReleases | app/src/store.py:1246-1263 | Exactly the listed people are gone and exactly their faces belong to nobody. |
| People.SweepKeeps | app/src/store.py:1266-1285 | Sweeping empty unnamed people leaves no face without its person. |
| People.SweepRemoves | app/src/store.py:1266-1285 | Exactly the old people with neither a name nor a face are removed. |
| People.PurgeKeeps | app/src/store.py:1073-1091 | Dropping the faces of photos and recounting the people touched keeps all counts true. |
| People.PurgeDrops | app/src/store.py:1073-1091 | Exactly the faces of the photos are gone, and no person. |
| People.MergeKeeps | app/src/store.py:1653-1688 | A merge keeps all counts true and all faces live. |
| People.MergesInherit | app/src/store.py:1653-1688 | After any merges the target has its own name and covers, or else those of the first source that has them, and all faces of the sources; everyone else is as before. |
| People.CountsStayTrue | app/src/store.py:1190-1407 | After any run of completed writes every person's counts are the numbers of their faces and of the photos these are on, and every face points to a live person or none. |
| People.EachIsChunk | app/src/store.py:1737-1759 | One chunk of the bulk merge equals merging its sources one by one, up to the target's counts. |
| People.ChunkStep | app/src/store.py:1725-1759 | And so do chunks after chunks. |
| People.MergesConserveFaces | app/src/store.py:1683-1686 | Merging changes the person of exactly the sources' faces; no face is lost or duplicated. |
| PeopleStore.PeopleTables.InsertFace | app/src/store.py:1288-1304 | A face of an existing person or none is inserted under a new id and its person recounted; otherwise nothing happens. |
| PeopleStore.PeopleTables.AssignFacePerson | app/src/store.py:1368-1377 | The face moves, both people are recounted, an emptied unnamed one goes; a missing person rolls back. |
| PeopleStore.PeopleTables.UnassignFace | app/src/store.py:1399-1407 | The face is released, its person recounted and collected if empty and unnamed. |
| PeopleStore.PeopleTables.AssignFacesPersonBulk | app/src/store.py:1380-1396 | In chunks, exactly the listed faces get the person, who is recounted; fails exactly if a listed face exists and the person does not. |
| PeopleStore.PeopleTables.GcUnnamedPerson | app/src/store.py:1210-1227 | Deletes exactly an unnamed person without faces. |
| PeopleStore.PeopleTables.DeletePeopleBulk | app/src/store.py:1246-1263 | In chunks, exactly the listed people are deleted and exactly their faces released; returns how many existed. |
| PeopleStore.PeopleTables.PurgeFaces | app/src/store.py:1075-1091 | In chunks, the faces of the photos are dropped and exactly the people touched recounted. |
| PeopleStore.PeopleTables.MergePerson | app/src/store.py:1653-1688 | The target keeps its own name and covers or takes the source's, gets all its faces, and the source is gone; fails exactly if faces would be left without a person. |
| PeopleStore.PeopleTables.DistinctSources | app/src/store.py:1715-1721 | The sources in order of first occurrence, without repeats and without the target. |
| PeopleStore.PeopleTables.FirstSeenInOrder | app/src/store.py:1715-1721 | The sources come in the order of their first occurrences. |
| PeopleStore.PeopleTables.MergeChunk | app/src/store.py:1725-1759 | One chunk in one transaction, with the target's fields cached in variables, has the specified result. |
| PeopleStore.PeopleTables.MergePeopleBulk | app/src/store.py:1696-1762 | The bulk merge ends in the tables of merging the live distinct sources one by one, chunk by chunk in query order, and returns their number; the target inherits from the first that has what it lacks. |
| BlockDownload.FileDownloader.WaitForDownloadCapacity | bridge/patches/fileDownloader.ts:370-396 | At the limit it returns only when the next block is there, and has something to wait for whenever that block was started. |
| BlockDownload.FileDownloader.WriteNext | bridge/patches/fileDownloader.ts:400-412 | The next block is written once, tried twice at most, and only then removed. |
| BlockDownload.FileDownloader.FlushCompletedBlocks | bridge/patches/fileDownloader.ts:398-414 | Writes a run of blocks from the next one on, and stops at the first that is not there. |
| BlockDownload.FileDownloader.AddBlock | bridge/patches/fileDownloader.ts:215-229 | Starts one block, waits for room and flushes; at the limit at least one block is written. |
| BlockDownload.FileDownloader.Race | bridge/patches/fileDownloader.ts:383-393 | Ends with a rejection or with at least one download less outstanding. |
| BlockDownload.FileDownloader.DownloadToStream | bridge/patches/fileDownloader.ts:183-279 | The stream has always received blocks 1 to nextBlockIndex - 1 in order; success means all listed blocks; in order, at most ten are held and none can be missing. |
| BlockDownload.DownloadBlockData | bridge/patches/fileDownloader.ts:291-368 | One block and its retries, a failed token renewal included: how it ends, and that the bytes reported are those of the attempt that succeeded. |
| BlockDownload.RetriedOnce | bridge/patches/fileDownloader.ts:338-360 | After expired tokens and at most one failure the next attempt decides: data, abort, a lost token at once, or a second failure. |
| TopK.TopUnique | app/src/api_common.py:460-467 | The k largest of a multiset in descending order are one list. |
| TopK.BestIsTop | app/src/api_common.py:460-467 | The list of at most three scores kept while scanning is always the three largest so far. |
| TopK.HeapHolds | app/src/api_common.py:395-399 | The bounded heap holds as many pairs as fit and nothing it left out scores higher than anything in it. |
| TopK.PairsAre | app/src/api_common.py:387-395 | The blockwise scan meets every pair i < j at or above the threshold exactly once. |
| TopK.HeapIsBest | app/src/api_common.py:385-400 | The sorted heap is the best pairs in descending order, each once. |
| TopK.DuplicatePairs | app/src/api_common.py:385-400 | The hits are the best pairs and do not depend on the block size. |
| TopK.PersonScores | app/src/api_common.py:445-467 | Each person's count is the number of others at least that similar, and their list the three largest of those similarities, for every block size. |
| TopK.ScoresArePartners | app/src/api_common.py:445-459 | The scan gives a person exactly the scores with all others, each once. |
| FaceSearch.ClampSearchLimit | app/src/api_common.py:518-519 | The nearest limit between 1 and 200: 1 below, 200 above, unchanged in between. |
| FaceSearch.TopkIndices | app/src/api_common.py:525-531 | A descending beginning of some ranking of all scores, of the size asked for where there are that many. |
| FaceSearch.TakeFirsts | app/src/api_common.py:601-612 | The loop with its seen set keeps the first face of each photo until the limit. |
| FaceSearch.FirstsRight | app/src/api_common.py:601-624 | Going down a descending ranking, the first face of each photo has its best score. |
| FaceSearch.FaceSimilarity | app/src/api_common.py:591-624 | The result is the best photos by their best face, exactly as on a full ranking of all faces. |
| Sidecar.EncodeUids | app/src/sidecar.py:149-154 | Rows of one width, failing exactly if a uid has more bytes than the most characters plus one. |
| Sidecar.RowDecodes | app/src/sidecar.py:91-94 | A stored row decodes to the uid exactly when the uid does not end in a zero byte. |
| Sidecar.AsciiRoundTrip | app/src/sidecar.py:149-154 | Uids of single-byte characters without zero bytes are always written and read back. |
| Sidecar.RunOrdered | app/src/sidecar.py:155-161 | Whatever crashes, the metadata on disk is never newer than the uid file, nor that than the matrix. |
| Sidecar.AcceptedRead | app/src/sidecar.py:76-117 | A read accepted between any renames has columns of equal length, nothing older than its metadata, and is one generation if sizes are distinct. |
| Sidecar.QuietRead | app/src/sidecar.py:76-117 | With no rename in between, a complete generation is accepted as it is. |
| Sidecar.SameSizeMixes | app/src/sidecar.py:98-109 | Some run has an accepted read that mixes generations if and only if two generations have the same number of rows. |
| Sidecar.FaceReader.ReadFaceSidecar | app/src/sidecar.py:62-122 | Serves what was mapped within two minutes, otherwise what the four accesses accept; always consistent. |

## Left out

- Kanji segments: their conversion table is not part of the file.
- Mask penalty scoring, format and version bits, and the finder, timing and alignment patterns: finitely many inputs; any reserved cells are allowed instead, and enough empty ones for the codewords are a condition.
- The SVG, ASCII and HTML output, and the img tag around the data URL.
- GifRaster.LzwTable.Add: the 16-bit wrap-around of String.fromCharCode is not modelled, because codes stay below 259 there.
- Floating-point rounding in the token bucket, and NaN or infinite rates from the environment.
- Overlap of two full scans: the source runs them on one thread.
- The video branch that finishes a photo with raw SQL, except as a step that bypasses the album hooks; `mark_deleted` and `set_photo_deleted`.
- Names, places, sizes and other columns that no statement here depends on.
- The foreign key from faces to photos, and the clip table.
- PeopleStore.PeopleTables.MergePeopleBulk: a target deleted by another writer between two chunks is not modelled; the chunk that finds it missing returns what was merged so far.
- Album names, sync times and the JSON form of album lists; lists that do not parse.
- Store.PhotoStore.SyncAlbums: whether the full rescan is due is a parameter.
- The seekable stream, telemetry, pausing and signature checks of the download.
- BlockDownload.FileDownloader.DownloadToStream: blocks listed twice are not modelled, because the listing service numbers them.
- TopK.DuplicatePairs: a limit below one is not modelled, because the callers clamp it; the heap would be read while empty.
- The payload rows built from search hits, and hits whose photo row is gone.
- The CLIP pair of sidecar files: the same protocol with two files.
- Staging and syncing the temporary files before the renames.
- Embedding cache generations and background refresh threads.
