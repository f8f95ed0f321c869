# Voice-command recogniser firmware: a verified model

This project models, in Dafny, the fixed-point and control core of a small
voice-command recogniser for a 32-bit ARM microcontroller, and proves
properties of that model. The core covers five parts:

- **Sampling** (`sampling.dfy`, module `Sampling`): the ADC interrupt
  handler. It averages 16 readings into one sample, fills a ring of three
  256-sample stride buffers and hands each full buffer to the foreground
  loop through a single latest-wins slot.
- **Recognizer** (`recognizer.dfy`, module `Recognizer`): the foreground
  loop. It shifts each stride into a 512-sample analysis window and sums the
  window in 32 bits. A two-counter segmenter cuts the stream of loud and
  quiet frames into words. Each word's feature vectors go into a 64-entry
  word buffer. A finished word is scored against every command template by
  dynamic time warping, and the last command with the lowest score wins.
- **Dynamic time warping** (`dtw.dfy`, module `DynamicTimeWarping`): the
  cumulative-cost matrix and its normalised score. `Cost` is the intended
  recurrence: cell (0, 0) is its own distance, the first column and first
  row are running sums, and the cheapest of three neighbours is taken only
  inside them. `Dtw.Compare` fills a fixed-capacity
  matrix and is proved to compute exactly that recurrence. Lemmas show
  that each cell is the cheapest warping path to it, that a sequence
  matches itself with score 0, and that bounded distances cannot overflow
  32 bits.
- **Mel filterbank** (`mfcc.dfy`, module `Mfcc`):
  - the rounding helpers and the triangular filter;
  - the mel-spaced corner frequencies and the FFT-bin conversions;
  - the active-bin range of every filter;
  - the lookup table that packs every filter's non-zero weights into one
    flat array, with its `get` and `evaluate`.
- **Transform tables** (`transform.dfy`, module `Transform`):
  - the Hann window, read through `n & (N - 1)`, which is proved to wrap
    every 32-bit index, negative ones included;
  - the row-major DCT-II table and its row dot product.
- **Integer printf** (`printf.dfy`, module `Printf`): modm's
  `IOStream::vprintf` for its non-float conversions, and
  `writeUnsignedInteger`/`writeUnsignedLongLong`. The serialisers build
  digits backwards in a scratch buffer, then the sign, then the padding,
  and write up to the NUL. `Format` is the corrected meaning of a format
  string. `VPrintf` is proved to write exactly that meaning.

Floating-point values are exact reals. The transcendental functions (sine,
cosine, square root, the mel warping) are parameters. The RMS loudness test
and the per-frame feature vector are inputs of the foreground loop. The
interrupt and the foreground loop run as sequential method calls. `int` and
`long` are 32 bits wide, `long long` is 64 bits, and a pointer is 4 bytes.

Shared pieces: `option.dfy` (module `Optional`) and `arith.dfy` (module
`Arithmetic`, lemmas about division and multiplication).

## Model

| member | source | states |
|---|---|---|
| DynamicTimeWarping.Min | src/app/dtw.hpp:27 | the cheaper neighbour is one of the two and no larger than either |
| DynamicTimeWarping.Normalise | src/app/dtw.hpp:31 | dividing by the summed lengths never increases the cost |
| DynamicTimeWarping.Dtw.constructor | src/app/dtw.hpp:33-34 | the matcher owns a fresh MaxSize x MaxSize cost matrix |
| DynamicTimeWarping.Dtw.Compare | src/app/dtw.hpp:13-32 | returns the last cell divided by lengthA + lengthB; every used cell holds the cumulative cost; cells outside the used block are unchanged; the result fits in 32 bits |
| DynamicTimeWarping.Dtw.FillEdges | src/app/dtw.hpp:14-20 | after the edge loops the first column and first row hold their cumulative costs, and nothing else changed |
| DynamicTimeWarping.Dtw.FillRow | src/app/dtw.hpp:22-30 | one pass of the inner loop makes every cell of row iA its cumulative cost from the row below and the cell to its left |
| DynamicTimeWarping.FirstColumnIsRunningSum | src/app/dtw.hpp:15-17 | the first column is the running sum of the distances of a's elements to b[0] |
| DynamicTimeWarping.FirstRowIsRunningSum | src/app/dtw.hpp:18-20 | the first row is the running sum of the distances of a[0] to b's elements |
| DynamicTimeWarping.CostIsAtMostEveryPath | src/app/dtw.hpp:22-30 | no warping path from (0,0) to a cell costs less than the cell's cumulative cost |
| DynamicTimeWarping.CheapestPredecessor | src/app/dtw.hpp:24-28 | every cell except (0,0) has a below, left or below-left neighbour whose cost plus the cell's distance is its cost |
| DynamicTimeWarping.OptimalPathAttainsCost | src/app/dtw.hpp:22-30 | some warping path reaches each cell at exactly its cumulative cost, so the cost is the cheapest path |
| DynamicTimeWarping.ExtendPath | src/app/dtw.hpp:24-28 | a warping path extended by one step stays a warping path and costs one more distance |
| DynamicTimeWarping.DiagonalIsZero | src/app/dtw.hpp:22-30 | with a distance that is zero on equal elements, a sequence against itself costs 0 on the diagonal |
| DynamicTimeWarping.SelfMatchScoresZero | src/app/dtw.hpp:13-32 | a sequence compared with itself scores 0 |
| DynamicTimeWarping.CostBound | src/app/dtw.hpp:22-30 | with distances at most `bound`, cell (i, j) costs at most (i + j + 1) * bound |
| DynamicTimeWarping.BoundedDistancesDoNotOverflow | src/app/dtw.hpp:11-28 | if (lengthA + lengthB - 1) * bound < 2^32, no cell of the uint32_t matrix overflows |
| DynamicTimeWarping.EdgeOverwriteChangesScore | src/app/dtw.hpp:15-30 | if the out-of-bounds border reads as 0, the source's loop order gives a different score from the intended recurrence on a 1 x 2 example (1 instead of 2) |
| Sampling.SumOfReadingsBound | src/boards/main/main.cpp:209-211 | a sum of n 16-bit readings is at most n * 65535, so 512 of them fit a uint32_t |
| Sampling.AdcInterruptHandler.Initialize | src/boards/main/main.cpp:117-122 | initialisation leaves an empty accumulator, 16 readings to go, position 0 in slot 0 and nothing published |
| Sampling.AdcInterruptHandler.Handler | src/boards/main/main.cpp:96-115 | a non-conversion interrupt changes nothing; readings accumulate; the 16th stores the floor of their mean and counts a sample; a full slot is published over any untaken one and the ring index moves on modulo 3 |
| Sampling.AdcInterruptHandler.StoreSample | src/boards/main/main.cpp:104-110 | stores the sample at (bufferIdx, bufferPos) only, and publishes and advances the slot when it becomes full |
| Sampling.AdcInterruptHandler.GetBuffer | src/boards/main/main.cpp:132-134 | returns the published slot, if any, and clears the slot (atomic exchange with null) |
| Sampling.AdcInterruptHandler.GetBufferBlocking | src/boards/main/main.cpp:137-141 | returns a published slot at once if there is one; otherwise it waits exactly the conversions that fill the current slot and returns that slot, leaving the ring on the next slot at position 0 with the stored samples counted |
| Sampling.AdcInterruptHandler.TakeSamplesComplete | src/boards/main/main.cpp:349 | returns the count of stored samples and resets it to 0 |
| Sampling.LatestWins | src/boards/main/main.cpp:106-109 | when a slot is published over an untaken one, the foreground sees only the newer slot, and polling again finds nothing |
| Recognizer.Decide | src/boards/main/main.cpp:229-252 | a finished word has at least one frame; an unfinished frame keeps the segmenter invariant; a kept feature vector has a slot in the 64-entry word buffer |
| Recognizer.RunKeepsInvariant | src/boards/main/main.cpp:229-252 | over any stream of frames the segmenter invariant holds and every finished word has at least one frame |
| Recognizer.RunConcat | src/boards/main/main.cpp:229-252 | segmenting two streams one after the other gives the same state and words as segmenting their concatenation |
| Recognizer.SilenceKeepsIdle | src/boards/main/main.cpp:238-248 | quiet frames outside a word start nothing and finish nothing |
| Recognizer.ShortPause | src/boards/main/main.cpp:238-247 | fewer quiet frames than the gap counter lengthen the word by those frames and count down, finishing nothing |
| Recognizer.SpeechIsOneWord | src/boards/main/main.cpp:229-252 | a loud-started stream with no 5-frame quiet run is one open word of its length, with the gap counter reduced by its trailing quiet frames |
| Recognizer.WordThenPause | src/boards/main/main.cpp:240-246 | speech ending loud, then 5 quiet frames, finishes exactly one word of the speech's length, and the word counter is then 0 |
| Recognizer.TenLoudFramesMakeOneWord | src/boards/main/main.cpp:229-252 | 10 loud frames then 5 quiet ones yield the one word [10] |
| Recognizer.BestMatchIsUnique | src/boards/main/main.cpp:316-323 | at most one index is the last position of the lowest score, so the best match is determined by the scores |
| Recognizer.LastMinimumIsBestMatch | src/boards/main/main.cpp:316-323 | the choice of the left-to-right `>=` scan is the last position of the smallest score, and -1 only for no scores |
| Recognizer.Recognizer.constructor | src/boards/main/main.cpp:37-60 | the buffers have their fixed capacities, the segmenter is idle and the template table is fixed |
| Recognizer.Recognizer.ShiftWindow | src/boards/main/main.cpp:202-204 | the newer half of the window moves to the front, and the published stride is copied behind it |
| Recognizer.Recognizer.SampleSum | src/boards/main/main.cpp:208-211 | the uint32_t accumulation equals the exact sum of the window: it never wraps |
| Recognizer.Recognizer.UpdateSegmenter | src/boards/main/main.cpp:229-252 | the counters and flags after one frame are those of the segmenter step |
| Recognizer.Recognizer.MatchWord | src/boards/main/main.cpp:308-313 | each command's result is its DTW score against the buffered word, divided by the template length; the unused result slots are unchanged |
| Recognizer.Recognizer.NoOverflowForBoundedDistances | src/boards/main/main.cpp:308-313 | distances below 2^25 keep every cost matrix over at most 64 x 64 vectors below 2^32 |
| Recognizer.Recognizer.FindBestMatch | src/boards/main/main.cpp:316-323 | returns the last index of the smallest score, or -1 with no commands |
| Recognizer.Recognizer.ProcessFrame | src/boards/main/main.cpp:299-334 | the segmenter advances; an unfinished word's frames are kept in order; a finished word is scored against every template, its best match is returned, and the word is cleared |
| Recognizer.Recognizer.Iterate | src/boards/main/main.cpp:196-334 | without a published stride nothing changes; with one the slot is taken, the window shifted and the segmenter advanced; a finished word is scored against every template, the last index of the lowest score is returned and the word is cleared; otherwise nothing is returned, the scores are untouched and the frame joins the open word |
| Mfcc.Trunc | src/boards/main/mfcc.hpp:12-14 | `static_cast<int>` rounds toward zero from either side |
| Mfcc.Ceil | src/boards/main/mfcc.hpp:10-15 | the result is at least the input and less than one above it |
| Mfcc.CeilIsLeast | src/boards/main/mfcc.hpp:10-15 | no integer at least the input is below the ceiling |
| Mfcc.EndpointsFollowTheMelSpacing | src/boards/main/mfcc.hpp:34-44 | corners 0 and N + 1 are minFreq and maxFreq, which the mel spacing also gives when the warping round-trips there |
| Mfcc.CornersIncrease | src/boards/main/mfcc.hpp:34-44 | with increasing warp functions the N + 2 corner frequencies strictly increase |
| Mfcc.FftBinRoundTrip | src/boards/main/mfcc.hpp:50-56 | frequency-to-bin and bin-to-frequency are inverse to each other |
| Mfcc.FftBinOrder | src/boards/main/mfcc.hpp:50-52 | the bin of a frequency preserves order both ways |
| Mfcc.TriangularFunction | src/boards/main/mfcc.hpp:62-67 | the weight is in [0, 1]; for ordered corners it is positive exactly strictly between left and right |
| Mfcc.TriangleReachesOneAtCenter | src/boards/main/mfcc.hpp:62-67 | the weight is 1 at the centre |
| Mfcc.TriangleSlopes | src/boards/main/mfcc.hpp:62-67 | the weight rises up to the centre and falls after it |
| Mfcc.ActiveBinsAreTheSupport | src/boards/main/mfcc.hpp:69-85 | a bin is in [lowest active bin, lowest + count) exactly when its frequency is strictly inside the filter's outer corners |
| Mfcc.NumActiveBinsNonNegative | src/boards/main/mfcc.hpp:82-85 | ordered outer corners give a non-negative active-bin count |
| Mfcc.MelSpacingGivesActiveCounts | src/boards/main/mfcc.hpp:82-93 | a mel-spaced bank over 0 <= minFreq < maxFreq with an increasing, round-tripping warp gives every filter 1..N a non-negative active-bin count, which the table constructor needs |
| Mfcc.MelFilterLutSize | src/boards/main/mfcc.hpp:87-93 | the loop sums the active-bin counts of filters 1..N, which is non-negative when every count is |
| Mfcc.Row | src/boards/main/mfcc.hpp:108-111 | a filter's row has one weight per active bin |
| Mfcc.FilterRows | src/boards/main/mfcc.hpp:104-112 | there is one row per filter, in filter order |
| Mfcc.RowsBeforeFilter | src/boards/main/mfcc.hpp:103-112 | the rows before filter k take exactly the sum of their active-bin counts |
| Mfcc.Entries | src/boards/main/mfcc.hpp:104-107 | there is one filter entry per filter, in filter order |
| Mfcc.MelFilterLut.constructor | src/boards/main/mfcc.hpp:98-113 | the built table packs every filter's row back to back, and each entry records its row's start, lowest bin and length |
| Mfcc.MelFilterLut.Get | src/boards/main/mfcc.hpp:115-128 | a valid filter at one of its active bins gives its stored weight, and any other filter or bin gives 0 |
| Mfcc.MelFilterLut.Evaluate | src/boards/main/mfcc.hpp:130-143 | a valid filter gives the sum of its weights times the spectrum over its active bins, and an invalid one gives 0 |
| Mfcc.Pack | src/boards/main/mfcc.hpp:103-112 | the two loops produce exactly the concatenated rows and the filter entries |
| Mfcc.PackFilter | src/boards/main/mfcc.hpp:105-111 | one filter's pass appends its row at the running index and records its entry |
| Mfcc.EntriesArePacked | src/boards/main/mfcc.hpp:103-112 | each entry's start index is the length of the rows before it and its count is its row's length |
| Mfcc.FillRow | src/boards/main/mfcc.hpp:108-111 | the inner loop writes the filter's weights at its active bins and leaves the table before it alone |
| Mfcc.GetIsTheFilter | src/boards/main/mfcc.hpp:115-128 | for ordered corners, a table lookup equals the triangular filter at that bin, so zeros outside the active range are the filter's own |
| Transform.Bits | src/boards/main/transform.hpp:23 | the two's-complement bits of a 32-bit int are below 2^32 and congruent to it |
| Transform.LowBits | src/boards/main/transform.hpp:23 | and-ing with N - 1, N a power of two, keeps the remainder modulo N |
| Transform.MaskIsRemainder | src/boards/main/transform.hpp:22-25 | `n & (N - 1)` on any 32-bit int, negative included, is n's Euclidean remainder modulo N, so the lookup never leaves the table |
| Transform.HannEntryInUnitInterval | src/boards/main/transform.hpp:16-19 | with a sine bounded by 1, every window entry is in [0, 1] |
| Transform.HannIsSymmetric | src/boards/main/transform.hpp:16-19 | entries n and N - 1 - n are equal |
| Transform.HannWindow.constructor | src/boards/main/transform.hpp:15-20 | the table holds sin²(π(n + ½)/N) at every n |
| Transform.HannWindow.Get | src/boards/main/transform.hpp:22-25 | reading any 32-bit index gives the window entry of its remainder modulo N |
| Transform.WindowIsPeriodic | src/boards/main/transform.hpp:22-25 | indices N apart read the same entry |
| Transform.WindowInUnitInterval | src/boards/main/transform.hpp:15-25 | every read is in [0, 1] |
| Transform.RowMajor | src/boards/main/transform.hpp:42 | index k * N + n is inside the N x N table and decodes back to (k, n) |
| Transform.RowFits | src/boards/main/transform.hpp:42 | every row of N coefficients fits the table |
| Transform.EachIndexHasOnePlace | src/boards/main/transform.hpp:37-45 | every table index is the place of exactly one (k, n), namely (i / N, i % N), so the constructor writes each entry once |
| Transform.PlacesAreDistinct | src/boards/main/transform.hpp:42 | distinct (k, n) go to distinct indices |
| Transform.DctTable.constructor | src/boards/main/transform.hpp:37-45 | every entry k * N + n holds the DCT-II coefficient cos(π/N (n + ½) k) scaled by sqrt(2/N), and also by sqrt(½) in row 0 |
| Transform.DctTable.Evaluate | src/boards/main/transform.hpp:47-53 | coefficient k is the dot product of x with row k, that is the DCT-II sum of x |
| Transform.RowDot | src/boards/main/transform.hpp:48-52 | the loop computes the dot product of x with one row of the table |
| Transform.RowHoldsCoefficients | src/boards/main/transform.hpp:37-45 | row k of the built table is the sequence of row-k coefficients |
| Transform.DotIsWeightedSum | src/boards/main/transform.hpp:47-53 | the dot product with a row of weights is the weighted sum |
| Transform.FillDctRow | src/boards/main/transform.hpp:39-43 | one pass of the outer loop extends the filled prefix by one row of coefficients |
| Transform.FirstRowIsFlat | src/boards/main/transform.hpp:40-53 | coefficient 0 of the transform is the constant cos(0) * sqrt(2/N) * sqrt(½) times the plain sum of the input |
| Printf.DigitChar | modm/src/modm/io/iostream_printf.cpp:257-261 | digit d is written as the d-th character of 0-9A-F |
| Printf.DigitsRoundTrip | modm/src/modm/io/iostream_printf.cpp:255-269 | reading the digits back in the same base gives the value |
| Printf.NoLeadingZero | modm/src/modm/io/iostream_printf.cpp:255-269 | the first digit is 0 exactly when the value is 0 (the do-while emits one digit for 0) |
| Printf.DigitsStep | modm/src/modm/io/iostream_printf.cpp:255-269 | the digits are those of v / base followed by the digit of v % base |
| Printf.DigitsAreDigitChars | modm/src/modm/io/iostream_printf.cpp:257-263 | every emitted character is a digit character |
| Printf.Fill | modm/src/modm/io/iostream_printf.cpp:281-283 | the padding is n fill characters, or none for n <= 0 |
| Printf.PaddedLayout | modm/src/modm/io/iostream_printf.cpp:271-283 | the text is the padding, then the sign, then the digits, and is max(width, digits + sign) long |
| Printf.PaddedHasNoNul | modm/src/modm/io/iostream_printf.cpp:285-289 | with a non-NUL fill the text has no NUL, so the output loop writes all of it |
| Printf.IOStream.Write | modm/src/modm/io/iostream_printf.cpp:52 | the device output gains one character |
| Printf.IOStream.WriteUnsigned | modm/src/modm/io/iostream_printf.cpp:246-290 | writes the padding, the sign and the base-b digits of the value |
| Printf.IOStream.WriteUntilNul | modm/src/modm/io/iostream_printf.cpp:285-289 | writes the scratch from ptr up to the terminator |
| Printf.PutDigits | modm/src/modm/io/iostream_printf.cpp:251-269 | the digit loop leaves the digits just below the terminator and reduces the width by their count, not below 0 |
| Printf.PutFill | modm/src/modm/io/iostream_printf.cpp:280-283 | the padding loop puts w fill characters in front |
| Printf.IOStream.VPrintf | modm/src/modm/io/iostream_printf.cpp:36-244 | the output gains exactly the formatted text of the format string and arguments |
| Printf.IOStream.WriteSpec | modm/src/modm/io/iostream_printf.cpp:55-240 | one `%` spec writes its conversion and moves past the spec and its argument; a spec cut short by the terminator ends formatting |
| Printf.IOStream.WriteConversion | modm/src/modm/io/iostream_printf.cpp:93-137 | the switch writes the conversion's text for its argument |
| Printf.IOStream.WriteString | modm/src/modm/io/iostream_printf.cpp:102-108 | `%s` writes the string up to its terminator |
| Printf.IOStream.WriteNumber | modm/src/modm/io/iostream_printf.cpp:196-240 | an integer conversion writes its padded, signed digits, and `%p` writes them after "0x" |
| Printf.ParseSpec | modm/src/modm/io/iostream_printf.cpp:55-89 | a spec spans 1 to 7 characters; the fill is '0' or ' '; the width is one digit; the conversion is the spec's last character |
| Printf.ReadSpec | modm/src/modm/io/iostream_printf.cpp:55-89 | the parser's reads finish before the terminator exactly when the spec is complete, and then give the parsed spec |
| Printf.ParseSpecText | modm/src/modm/io/iostream_printf.cpp:55-89 | parsing a written spec `%[0][w][l[l]]c` gives back its fill, width, length flags and conversion |
| Printf.AsSigned | modm/src/modm/io/iostream_printf.cpp:213-236 | `va_arg` reads a 32- or 64-bit two's-complement value in range and congruent to the argument |
| Printf.MakePositive | modm/src/modm/io/iostream_printf.cpp:197-236 | a signed conversion of a negative pattern gives the sign and the magnitude, and otherwise the unsigned pattern |
| Printf.NumberFits | modm/src/modm/io/iostream_printf.cpp:251-269 | any 64-bit number with its sign and a one-digit width fits a 66-character scratch buffer |
| Printf.SixtyFourBits | modm/src/modm/io/iostream_printf.cpp:293-316 | a 64-bit value has at most 64 digits in any base from 2 up |
| Printf.FormatStaysInBounds | modm/src/modm/io/iostream_printf.cpp:36-244 | corrected formatting never reads past the terminator and never overflows the scratch buffer |
| Printf.AsWrittenAgreesUnlessUndefined | modm/src/modm/io/iostream_printf.cpp:36-290 | the as-written loop gives the corrected text, except where it reads past the terminator or overflows the 26-byte scratch |
| Printf.LiteralTextIsCopied | modm/src/modm/io/iostream_printf.cpp:42-54 | a format string without `%` is written as it is |
| Printf.DecimalRoundTrip | modm/src/modm/io/iostream_printf.cpp:114-240 | `%d` and `%lld` of any in-range value read back as that value |
| Printf.SignedNumber | modm/src/modm/io/iostream_printf.cpp:228-236 | a signed conversion of an in-range value pads its magnitude with a sign exactly when it is negative |
| Printf.ZeroFillGoesBeforeSign | modm/src/modm/io/iostream_printf.cpp:271-283 | `%05d` of -42 is "00-42": zero padding goes in front of the minus sign |
| Printf.ZeroFilledNegative | modm/src/modm/io/iostream_printf.cpp:271-283 | `%05d` of any negative int is the zeros, then the minus sign, then the digits |
| Printf.WidthIsOneDigit | modm/src/modm/io/iostream_printf.cpp:65-69 | `%10d` takes width 1 and prints the conversion character '0', then "d" |
| Printf.PercentPercent | modm/src/modm/io/iostream_printf.cpp:98-100 | `%%` writes one '%' and consumes no argument |
| Printf.NegativeAsUnsigned | modm/src/modm/io/iostream_printf.cpp:213-239 | `%u` of a negative int prints its 32-bit unsigned pattern |
| Printf.CharIsLowByte | modm/src/modm/io/iostream_printf.cpp:95-100 | `%c` writes the low byte of its int argument |
| Printf.PointerText | modm/src/modm/io/iostream_printf.cpp:122-133 | `%p` prints "0x" and exactly 8 upper-case hex digits of the 32-bit pattern |
| Printf.TrailingPercentReadsPastEnd | modm/src/modm/io/iostream_printf.cpp:42-100 | a trailing `%` reads past the terminator as written, while corrected formatting ends at it |
| Printf.BinaryOverflowsScratch | modm/src/modm/io/iostream_printf.cpp:251-269 | `%b` of a value of at least 2^25 overflows the 26-byte scratch as written, while corrected formatting prints its binary digits |

## Left out

- Floating point: the `%f` branch (iostream_printf.cpp:141-195) is not modelled. `Convert` maps it to `FloatConversion`, and `Printf.IOStream.VPrintf` requires a format whose result is text. The precision digit after `.` is parsed and skipped because only `%f` uses it.
- The output device and the UART stream are the `output` sequence of `Printf.IOStream`.
- `va_arg`'s undefined cases are made explicit. A missing argument, or one of the wrong kind, gives `BadArgument`. An integer argument is read through its low 32 or 64 bits.
- Negating the most negative `int` or `long long` is modelled as its two's-complement wrap-around, which is what the target does.
- The AVR build, which has no `writeUnsignedLongLong`, is not modelled.
- Printf.IOStream.WriteUnsigned: takes the scratch size as a parameter. It requires that the digits, sign and padding fit the buffer. The 26-byte as-written buffer is covered by `FormatAsWritten` and the findings below.
- Printf.IOStream.VPrintf: models the corrected loop, which stops at a spec cut short by the terminator. The as-written read past the terminator is `FormatAsWritten`.
- Sampling.AdcInterruptHandler.GetBufferBlocking: does not restate the sample values stored while it waits; `Handler` states each of them.
- Sampling.AdcInterruptHandler.Handler: `samplesComplete` is an unbounded count, so the 32-bit `int` counter's wrap-around after 2^31 samples is not modelled.
- ADC, GPIO, timer and interrupt-vector set-up, the LED, timekeeping and the serial statistics output are hardware I/O and are left out.
- The floating-point frame pipeline (normalisation and RMS, FFT, magnitude, log mel energies, DCT over them, feature scaling) is left out. The segmenter takes the RMS comparison as the input `loud`, and each frame's feature vector is an input.
- The Euclidean distance metric (main.cpp:63-70) is the parameter `dist`.
- Recognizer.Recognizer.constructor: requires every distance to be below 2^25. The float-to-uint32 conversion of a larger distance is not modelled.
- Recognizer.Recognizer.ProcessFrame: requires a finishing word to have at most 64 frames. The source then calls `compare` with a word longer than the 64 x 64 matrix, which writes out of bounds.
- Recognizer.Recognizer.Iterate: requires the same bound as ProcessFrame.
- DynamicTimeWarping.Dtw.Compare: requires that no cell exceeds 2^32. Wrap-around of the uint32_t costs is not modelled.
- DynamicTimeWarping.Dtw.Compare: models the intended recurrence, which reads nothing outside the matrix: the first edge loop's read before cell (0, 0) is taken as 0, and the interior loops start at 1. The source's reads of row and column -1 are out of bounds; their as-written effect is the finding below.
- Mfcc.ActiveBinsAreTheSupport: stated for filters whose three corners are ordered and non-negative, which is what the mel spacing gives (`Mfcc.CornersIncrease`).
- Mfcc.MelFilterLut.Evaluate: requires the active bins to lie inside the spectrum, which the source relies on without a check.
- The template table (`voiceCommands`, generated from recordings) is a constructor argument.

## Findings

| source | as written | input that shows it | evidently intended | confidence | as-written member | corrected member |
|---|---|---|---|---|---|---|
| src/app/dtw.hpp:22-23 | the interior loops start at 0, so they overwrite the first row and column. Those cells then take a minimum that includes the out-of-bounds border and lose their running sums. Column -1 of row iA is the last cell of row iA - 1, which stays 0 until a 64-frame sequence is compared. Row -1 is whatever global precedes the matrix | template [0], word [1, 1], distance 3 between different elements, if the memory before the matrix reads as 0: intended score 6/3 = 2, as written 3/3 = 1. The overwrite itself does not depend on that memory | start both interior loops at 1, keeping the edges computed before them | not executed | DynamicTimeWarping.EdgeOverwriteChangesScore | DynamicTimeWarping.Dtw.Compare |
| modm/src/modm/io/iostream_printf.cpp:55-100 | a `%` at the end of the format reads the terminator as the conversion character. The default case writes it, and the loop reads on past the end of the string | any format ending in a lone `%`, such as "abc%" | stop at the terminator | not executed | Printf.TrailingPercentReadsPastEnd | Printf.FormatStaysInBounds |
| modm/src/modm/io/iostream_printf.cpp:251-269 | the scratch buffer holds 26 characters, so a number with more than 25 digits writes below its start | `%b` of 2^25, which has 26 binary digits; likewise `%llb` of any 64-bit value of at least 2^25 | a scratch buffer large enough for 64 binary digits, a sign and the terminator | not executed | Printf.BinaryOverflowsScratch | Printf.FormatStaysInBounds |
