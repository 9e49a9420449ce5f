# Verified models of a JPEG compressor, a GIF decompressor and some tools

The project models, in Dafny, the parts of the repository where a reader cannot see from one routine that the whole
is right:

- the Huffman half of the JPEG compressor (`jchuff.c`): optimal code lengths, their limitation to 16 bits, canonical
  codes, coding of blocks, bit packing with byte stuffing, restart markers, suspension, and the statistics pass;
- the coefficient controller (`jccoefct.c`) with the geometry of `jcmaster.c`: single-pass compression and compression
  through a full-image buffer, dummy blocks included;
- the pass machine and the scan scripts (`jcmaster.c`, `jcparam.c`, `jcapimin.c`, `jcapistd.c`, `jctrans.c`);
- the LZW decoder and its code reader (`IMG_gif.c`);
- incremental MD5 (`md5.c`) and the firmware container that uses it (`Q2Crypt.c`);
- the line and circle loops of `SDL_gfxPrimitives.c`.

Code that changes its state step by step is modelled by methods and classes that do the same, each proved against a
function or predicate that says what the result means; the properties of those specifications are then lemmas. The
decoder of T.81, its layout of a scan and its procedure for limiting code lengths, the plain dictionary decoder and the
compressor of the GIF89a specification, the one-shot MD5 of RFC 1321 and exact arithmetic for the rasterisers are defined
independently of the code that is compared with them.

The results that span most modules are in `CompressRun`, the first three of them for each of the ways in which a
controller gets its blocks (from the input, while filling the buffer, from the buffer):

- `Session`: with a destination that refuses output, and an application that compresses and empties the buffer in any
  order, what has been committed is always a prefix of the unsuspended output, each MCU once and in order;
- `RunToEnd`: an application that empties the buffer before each call gets to the end of the scan after at most one
  call for each MCU and each iMCU row, with exactly the unsuspended output, and fails exactly if some MCU cannot be
  coded. The buffer must be able to take what one MCU adds; `BufferSuffices` gives a size that always can;
- `AllModes`: one scan run in all three ways, suspensions included, gives the same bytes three times;
- `CompressOptimized`: after a statistics pass the encoding pass cannot fail, and what it writes decodes to exactly the
  MCUs of the image. The statistics pass fails exactly if a coefficient is out of range or the tree for the counts of
  an AC table is higher than 32. That cannot happen with a total count below 9,227,465 (`HuffmanDepth.LightIsShallow`),
  nor with fewer than 146,468 blocks, nor for a DC table; it does happen for an image of 19200 by 19200 samples
  (`DeepScan.DeepImageFails`).

`ImageRun.CompressWhole` joins all of this to master control: a whole image with a sequential script, or none, and
optimised tables is compressed exactly if its settings are legal and every scan can be coded, and then the output is,
scan by scan, data that decodes to the scan's MCUs. `ImageRecovery.OutputDeterminesImage` adds that this determines every
block of every component.

Modules, in order of dependence: `Sequences`, `Powers`, `BitStrings`, `BytePacking`, `BitWriter`, `CanonicalCode`,
`HuffmanCost`, `HuffmanDepth`, `HuffmanForest`, `DeepestCounts`, `OptimalTable`, `BlockCoding`, `BlockEncoder`,
`LengthLimits`, `ScanCoding`, `HuffEncoder`, `OutputBounds`, `ScanDecoder`, `ScanLayout`, `Statistics`, `ScanTotals`,
`Geometry`, `CoefImage`, `McuLayout`, `CoefController`, `CompressRun`, `DeepScan`; `ScanScript`, `SimpleProgression`,
`PassPlan`, `PassControl`; `ImageRun`, `ImageRecovery`; `GifBits`, `GifLzw`, `LzwEncoder`; `Words`, `Md5`, `Q2Update`;
`Raster`.

`dafny verify dfyconfig.toml` checks everything. Nothing was executed.

Where code and comments disagree, the model follows the code:

- the second loop of `LWZReadByte`'s set-up clears `table[1][0]` over and over instead of `table[1][i]`
  (`IMG_gif.c:436`); the model does the same, and the proof shows that it does no harm;
- `GetCode` refills at most once for a code, so a sub-block of one byte may not complete it. What is returned then has
  stale bits of the buffer in it: the 9-bit code `0x1FF`, sent as two sub-blocks of one byte, is read as `0x0FF` unless
  an earlier image has left a one there (`GifBits.ShortSubBlocks`). If every sub-block but the last has two bytes or
  more this does not happen;
- where the image data ends in the middle of a code, without an end code, `GetCode` delivers one more code, made of the
  bits that are left and of the first bits of the last sub-block, and reports the end only after that
  (`GifBits.CodeAt`, `GifLzw.CutShort`);
- `buf` and `last_byte` are static, and the reset for a new image (`IMG_gif.c:375-380`) leaves them alone, so the model
  starts from whatever an earlier image can have left. Before the first image `last_byte` is 0, and the first refill
  copies `buf[-2]` and `buf[-1]` (`IMG_gif.c:387-388`), for which the model's `mem` has two bytes in front of `buf`. In
  any case the two bytes that the first refill copies are never part of a code;
- the 16-bit decision variables of the circle loop overflow for large radii. The pixels are the right ones exactly for
  radii up to 16556 and for 16642 and 16643 (`Raster.CircleLoop`, `Raster.GoodRadius`);
- the error for an over-long code (`jchuff.c:780-783`), which a comment there takes to be impossible, can happen
  (`DeepScan.DeepImageFails`); the last check of `decryptUpdate` (`Q2Crypt.c:168-172`) can never fail
  (`Q2Update.DecryptUpdate`).

## Model

| member | source | states |
|---|---|---|
| HuffmanCost.HuffmanIsOptimal | dawitsv2-mid/middle/jpeg-6b/jchuff.c:722-776 | No code lengths that satisfy the Kraft inequality cost less than merging the two smallest counts again and again |
| HuffmanCost.LightestDeepest | dawitsv2-mid/middle/jpeg-6b/jchuff.c:731-759 | Moving the two smallest counts to the greatest lengths never costs more and keeps the code feasible |
| HuffmanForest.FindLeast | dawitsv2-mid/middle/jpeg-6b/jchuff.c:731-751 | Finds a smallest nonzero count other than the excluded symbol's, ties going to the larger symbol number; a count above 1,000,000,000 is not seen |
| HuffmanForest.MergeBranches | dawitsv2-mid/middle/jpeg-6b/jchuff.c:758-776 | Adds the counts, deepens exactly the symbols of both chains by one, and links the second chain behind the first |
| HuffmanForest.PassKeeps | dawitsv2-mid/middle/jpeg-6b/jchuff.c:730-776 | One turn of the merge loop keeps disjoint chains, each with Kraft sum 1, and keeps cost so far plus cost to come |
| HuffmanForest.AssignSizes | dawitsv2-mid/middle/jpeg-6b/jchuff.c:705-776 | The code sizes after the merge loop are minimal in total cost among all feasible lengths, with Kraft sum exactly 1 and greatest length the height of the tree, if and only if no merge meets a second smallest count above 1,000,000,000 |
| HuffmanDepth.SmallCountsFit | dawitsv2-mid/middle/jpeg-6b/jchuff.c:731-751 | With counts up to 1,000,000,000 and a total up to one and a half times that, every merge sees its two counts |
| HuffmanDepth.DeepNeedsWeight | dawitsv2-mid/middle/jpeg-6b/jchuff.c:722-786 | A code of length L needs a total count of at least the (L+2)-nd Fibonacci number |
| HuffmanDepth.LightIsShallow | dawitsv2-mid/middle/jpeg-6b/jchuff.c:778-786 | With a total count below 9,227,465 no code is longer than 32 bits |
| DeepestCounts.LadderIsDeep | dawitsv2-mid/middle/jpeg-6b/jchuff.c:778-786 | Fibonacci counts with 3,524,578 or more ends of block have a code of 33 bits; at the least number the total is 9,227,465, so that bound is sharp |
| OptimalTable.ShortenStep | dawitsv2-mid/middle/jpeg-6b/jchuff.c:801-813 | An adjustment always finds a shorter length in use, removes two symbols, and keeps symbol count and Kraft sum |
| OptimalTable.LimitLengths | dawitsv2-mid/middle/jpeg-6b/jchuff.c:801-813 | The two nested adjustment loops end, with the length counts of the recursive description, which `LengthLimits` and LimitedIsFull pin down |
| OptimalTable.LimitedIsFull | dawitsv2-mid/middle/jpeg-6b/jchuff.c:801-813 | That description keeps the number of symbols, leaves Kraft sum 1, and has no length above 16 |
| LengthLimits.LimitedByAdjustments | dawitsv2-mid/middle/jpeg-6b/jchuff.c:790-813 | The limited lengths are reached by the procedure of figure K.3: always at the greatest length above 16, always giving up one code of the greatest length in use up to two below it |
| LengthLimits.GreatestIsBest | dawitsv2-mid/middle/jpeg-6b/jchuff.c:805-812 | Any other code given up leaves fewer codes of the first length at which the choice makes a difference |
| LengthLimits.AdjustmentLengths | dawitsv2-mid/middle/jpeg-6b/jchuff.c:805-812 | The sum of all lengths grows by the length given up plus one less the length treated, so for equally frequent symbols a shorter one would be cheaper |
| LengthLimits.ShortCodesStayShort | dawitsv2-mid/middle/jpeg-6b/jchuff.c:801-834 | No symbol whose optimal code is shorter than every length given up gets a longer code in the table |
| OptimalTable.DropPseudo | dawitsv2-mid/middle/jpeg-6b/jchuff.c:815-818 | Takes one code of the greatest length in use away and nothing else |
| OptimalTable.ListSymbols | dawitsv2-mid/middle/jpeg-6b/jchuff.c:823-834 | Lists each coded symbol once, by length and then by number |
| OptimalTable.GenOptimalTable | dawitsv2-mid/middle/jpeg-6b/jchuff.c:705-838 | Makes the table of optimal, then limited lengths, and fails exactly when the tree for the counts is higher than 32 |
| OptimalTable.TableIsAcceptable | dawitsv2-mid/middle/jpeg-6b/jchuff.c:815-834 | Every generated table has exactly the counted symbols, leaves the all-ones code free, and passes the validation of the table derivation |
| OptimalTable.NoSymbolGetsLonger | dawitsv2-mid/middle/jpeg-6b/jchuff.c:815-834 | Without over-long codes, no symbol gets more bits than in the optimal code that includes symbol 256 |
| CanonicalCode.HuffSizes | dawitsv2-mid/middle/jpeg-6b/jchuff.c:208-220 | The list of code lengths of figure C.1, refused exactly when it would exceed 256 symbols |
| CanonicalCode.HuffCodes | dawitsv2-mid/middle/jpeg-6b/jchuff.c:222-246 | The codes of figure C.2, refused exactly when the Kraft sum is not below 1 |
| CanonicalCode.MakeDerivedTable | dawitsv2-mid/middle/jpeg-6b/jchuff.c:179-264 | Accepts exactly the tables with at most 256 codes, Kraft sum below 1 and distinct symbols in range, and gives each its canonical code |
| CanonicalCode.AcceptedSymbols | dawitsv2-mid/middle/jpeg-6b/jchuff.c:251-258 | The symbols of an accepted DC table are at most 15 |
| CanonicalCode.DerivedIsPrefixFree | dawitsv2-mid/middle/jpeg-6b/jchuff.c:221-263 | Derived codes are pairwise prefix-free, fit their lengths, and none is all ones |
| BytePacking.CodedRoundTrip | dawitsv2-mid/middle/jpeg-6b/jchuff.c:312-331 | Unstuffing and unpacking the bytes and appending the pending bits gives back all bits coded |
| BytePacking.NoMarkerInside | dawitsv2-mid/middle/jpeg-6b/jchuff.c:322-327 | Every 0xFF in coded data is followed by a zero byte |
| BytePacking.PadToByte | dawitsv2-mid/middle/jpeg-6b/jchuff.c:339-347 | Padding with seven ones completes the last byte and adds no byte of its own |
| BitWriter.Destination.EmptyOutputBuffer | dawitsv2-mid/middle/jpeg-6b/jchuff.c:276-289 | A suspending destination refuses and changes nothing; any other takes the whole buffer |
| BitWriter.Destination.EmitMarkerByte | dawitsv2-mid/middle/jpeg-6b/jcmarker.c:107-118 | A marker byte is committed; an error exactly if the destination refuses when the buffer is full |
| BitWriter.WorkingState.EmitBits | dawitsv2-mid/middle/jpeg-6b/jchuff.c:294-336 | Appends the code's bits to the bits written, keeps fewer than eight pending in a zero-padded window, and suspends only if the stream does not fit |
| BitWriter.WorkingState.FlushBits | dawitsv2-mid/middle/jpeg-6b/jchuff.c:339-347 | Pads with ones to a byte boundary and empties the bit buffer |
| BlockCoding.ExtendWord | dawitsv2-mid/middle/jpeg-6b/jchuff.c:362-391 | The bits sent for a coefficient, negative ones included, are read back by EXTEND of figure F.12 |
| BlockCoding.AcRoundTrip | dawitsv2-mid/middle/jpeg-6b/jchuff.c:397-440 | The AC decoder of figure F.13 reads back every coefficient sequence, zero runs over 15 and end of block included |
| BlockCoding.ZeroTail | dawitsv2-mid/middle/jpeg-6b/jchuff.c:434-438 | Zeros at the end of a block, however many, are coded as one end of block |
| BlockCoding.BlockRoundTrip | dawitsv2-mid/middle/jpeg-6b/jchuff.c:352-443 | The decoder of section F.2.2 returns exactly the block that was coded and uses exactly its bits |
| BlockCoding.BadIffOutOfRange | dawitsv2-mid/middle/jpeg-6b/jchuff.c:378-424 | The range checks reject exactly the blocks with a coefficient or DC difference of illegal size |
| BlockEncoder.EncodeOneBlock | dawitsv2-mid/middle/jpeg-6b/jchuff.c:352-443 | On success the block's tokens, and nothing else, have been sent; fails only if one cannot be coded, suspends only for lack of room |
| BlockEncoder.TestOneBlock | dawitsv2-mid/middle/jpeg-6b/jchuff.c:571-636 | Counts the symbols the encoder would send for the block, and fails exactly on blocks out of range |
| BlockEncoder.TallyCounts | dawitsv2-mid/middle/jpeg-6b/jchuff.c:600-635 | A count grows by the number of times its symbol occurs among the tokens |
| HuffEncoder.EmitRestart | dawitsv2-mid/middle/jpeg-6b/jchuff.c:450-468 | Pads the interval, writes RSTn and clears the DC predictors |
| HuffEncoder.HuffEntropyEncoder.constructor | dawitsv2-mid/middle/jpeg-6b/jchuff.c:157-168 | An encoder starts with nothing accepted, behind what was committed before |
| HuffEncoder.HuffEntropyEncoder.EncodeMcu | dawitsv2-mid/middle/jpeg-6b/jchuff.c:475-525 | The MCU is committed as a whole or nothing changes; refused exactly when the destination refuses and the MCU does not fit |
| HuffEncoder.HuffEntropyEncoder.FinishPass | dawitsv2-mid/middle/jpeg-6b/jchuff.c:532-552 | The committed bytes become those of the accepted MCUs, padded with ones; fails exactly for lack of room |
| ScanLayout.RestartsAre | dawitsv2-mid/middle/jpeg-6b/jchuff.c:486-525 | A restart comes exactly after every restart_interval MCUs, and the markers are numbered 0 to 7 over and over |
| ScanLayout.MarkerIs | dawitsv2-mid/middle/jpeg-6b/jchuff.c:450-463 | In a finished scan MCU number n * (m + 1), for restart interval n, is preceded by the bytes 0xFF and 0xD0 + m mod 8 |
| ScanLayout.FinishedLayout | dawitsv2-mid/middle/jpeg-6b/jchuff.c:450-552 | A finished scan is its intervals, each coded from zero predictors and padded with ones, with a marker between any two and nothing else |
| ScanLayout.PlainLayout | dawitsv2-mid/middle/jpeg-6b/jchuff.c:475-552 | Without a restart interval it is one interval |
| McuLayout.CodedFromPredictor | dawitsv2-mid/middle/jpeg-6b/jchuff.c:497-507 | Each block is coded with the difference to the DC value of the last block of its component |
| McuLayout.PredictorsAfter | dawitsv2-mid/middle/jpeg-6b/jchuff.c:497-507 | After an MCU the predictors are the DC values of the last blocks of the components |
| ScanDecoder.OpenInterval | dawitsv2-mid/middle/jpeg-6b/jchuff.c:450-463 | The search for the next marker stops exactly at the end of a padded interval and gives back its bits |
| ScanDecoder.ScanRoundTrip | dawitsv2-mid/middle/jpeg-6b/jchuff.c:475-552 | Every finished scan, with restart markers, stuffing, padding and DC prediction, decodes to the MCUs that were encoded |
| ScanDecoder.ScanDeterminesMcus | dawitsv2-mid/middle/jpeg-6b/jchuff.c:475-552 | No two scans of the same length are written as the same bytes |
| ScanDecoder.EncoderOutputDecodes | dawitsv2-mid/middle/jpeg-6b/jchuff.c:475-552 | Whatever an encoder has accepted, under any schedule, can be read back once the pass is finished |
| Statistics.CountsAreSymbolsSent | dawitsv2-mid/middle/jpeg-6b/jchuff.c:644-673 | Each count is the number of times its symbol is sent in the whole scan |
| Statistics.StatisticsPass.constructor | dawitsv2-mid/middle/jpeg-6b/jchuff.c:128-147 | The counts of all tables in use start at zero |
| Statistics.StatisticsPass.GatherMcu | dawitsv2-mid/middle/jpeg-6b/jchuff.c:644-673 | Adds the symbols of the MCU as the encoder would send them, restarts included; fails exactly when a coefficient is out of range |
| Statistics.StatisticsPass.FinishPass | dawitsv2-mid/middle/jpeg-6b/jchuff.c:845-880 | Every table in use is made once, from its own intact counts, the others are left alone; fails exactly when the tree for the counts of an AC slot is too high |
| Statistics.DcIsShallow | dawitsv2-mid/middle/jpeg-6b/jchuff.c:845-880 | Making a DC table never fails: its codes cannot be longer than its 12 symbols allow |
| ScanTotals.FewBlocksFit | dawitsv2-mid/middle/jpeg-6b/jchuff.c:571-636 | In a scan of up to 15,873,015 blocks every merge for an AC table sees its counts |
| ScanTotals.FewBlocksShallow | dawitsv2-mid/middle/jpeg-6b/jchuff.c:571-636 | In a scan of up to 146,467 blocks no table can fail |
| DeepScan.DeepImageFails | dawitsv2-mid/middle/jpeg-6b/jchuff.c:705-786 | There is an image, legal and in range, for whose scan, whatever the restart interval and the zigzag order, making the AC table fails |
| Statistics.ScanIsCountable | dawitsv2-mid/middle/jpeg-6b/jchuff.c:571-636 | The counts of a scan always have a live symbol and at most 255 live symbols |
| Statistics.StatisticsSuffice | dawitsv2-mid/middle/jpeg-6b/jchuff.c:559-563 | With tables made from a scan's statistics every MCU of the scan can be encoded |
| Statistics.DeriveTables | dawitsv2-mid/middle/jpeg-6b/jchuff.c:149-156 | Derives usable, prefix-free tables for all slots in use, and fails exactly when one is missing or not acceptable |
| Statistics.EncoderNeverFails | dawitsv2-mid/middle/jpeg-6b/jchuff.c:559-563 | An encoder fed the counted MCUs never meets a missing code or a bad coefficient |
| Geometry.NestedCeiling | dawitsv2-mid/middle/jpeg-6b/jcmaster.c:94-123 | Rounding up to blocks and then to MCUs is the same as rounding up the image size |
| Geometry.ComponentFillsMcus | dawitsv2-mid/middle/jpeg-6b/jcmaster.c:350-369 | Every component fills the same MCU columns and rows, the last with the computed number of real blocks |
| Geometry.InitialSetup | dawitsv2-mid/middle/jpeg-6b/jcmaster.c:46-124 | Accepts exactly the legal sizes, row widths, precision and sampling factors, and computes maximum factors and dimensions |
| Geometry.PerScanSetup | dawitsv2-mid/middle/jpeg-6b/jcmaster.c:307-389 | MCU dimensions, last column and row, MCU membership and restart interval; fails exactly for too many components or blocks |
| CoefImage.Job.PositionInScan | dawitsv2-mid/middle/jpeg-6b/jccoefct.c:153-217 | At every position the next MCU continues the fixed order of the scan |
| CoefImage.Job.McuCount | dawitsv2-mid/middle/jpeg-6b/jcmaster.c:320-352 | A scan delivers exactly MCU_rows_in_scan times MCUs_per_row MCUs |
| CoefImage.ColumnIsReal | dawitsv2-mid/middle/jpeg-6b/jccoefct.c:170-171 | The column count taken for an MCU column covers exactly the columns inside the image |
| CoefImage.RowIsReal | dawitsv2-mid/middle/jpeg-6b/jccoefct.c:175-176 | The row test is true exactly for block rows inside the image |
| McuLayout.BlockInMcu | dawitsv2-mid/middle/jpeg-6b/jccoefct.c:167-200 | The blocks of an MCU come component by component, row by row and from left to right |
| McuLayout.McuIndex | dawitsv2-mid/middle/jpeg-6b/jccoefct.c:153-213 | MCUs are numbered row by row and from left to right |
| McuLayout.DummyCosts | dawitsv2-mid/middle/jpeg-6b/jccoefct.c:160-203 | Every dummy block of an MCU, to the right of the image or below it, is coded as exactly two symbols: no DC difference, and end of block |
| CoefController.CoefController.InputMcu | dawitsv2-mid/middle/jpeg-6b/jccoefct.c:167-200 | The MCU built from the input holds the blocks, dummy blocks included, that the specification puts there |
| CoefController.CoefController.CompressData | dawitsv2-mid/middle/jpeg-6b/jccoefct.c:142-218 | Finished or suspended, the encoder has taken exactly the MCUs before the saved position; suspended only if the MCU there does not fit |
| CoefController.CoefController.LoadStrip | dawitsv2-mid/middle/jpeg-6b/jccoefct.c:255-320 | Afterwards the buffered image holds one more iMCU row, dummy blocks included, of every component |
| CoefController.CoefController.CompressFirstPass | dawitsv2-mid/middle/jpeg-6b/jccoefct.c:244-327 | Loads the row and sends it; suspended only if the next MCU does not fit, and repeating it then changes nothing in the image |
| CoefController.CoefController.CompressOutput | dawitsv2-mid/middle/jpeg-6b/jccoefct.c:340-395 | Hands over, from the buffer, the same MCUs in the same order as single-pass compression, with the same condition for suspension |
| CoefController.CoefController.FullImage | dawitsv2-mid/middle/jpeg-6b/jccoefct.c:412-432 | The arrays for the whole image cover whole MCUs |
| CoefController.Entropy.EncodeMcu | dawitsv2-mid/middle/jpeg-6b/jchuff.c:112-122 | Coder and statistics gatherer both take an MCU whole or not at all; suspended only if the coder has no room for it, taken only if it has |
| CompressRun.CommittedIsPrefix | dawitsv2-mid/middle/jpeg-6b/jchuff.c:475-525 | After any suspensions the committed bytes are a prefix of those of an unsuspended run |
| CompressRun.Session | dawitsv2-mid/middle/jpeg-6b/jccoefct.c:142-395 | In all three modes, under every schedule of compressing and taking bytes, each MCU is committed once, in order, and the bytes are a prefix of those of an unsuspended run, all of them when the rows are done |
| CompressRun.RunToEnd | dawitsv2-mid/middle/jpeg-6b/jccoefct.c:142-395 | Emptying the buffer before every call completes the scan within one call for each MCU and each iMCU row, with exactly the unsuspended bytes; fails exactly if an MCU cannot be coded |
| CompressRun.BlockedMoved | dawitsv2-mid/middle/jpeg-6b/jchuff.c:475-525 | A call that suspends after the buffer was emptied has made progress |
| CompressRun.BufferSuffices | dawitsv2-mid/middle/jpeg-6b/jchuff.c:475-525 | A buffer of 420 bytes for each block of an MCU, and five more, can take any MCU |
| OutputBounds.McuAdds | dawitsv2-mid/middle/jpeg-6b/jchuff.c:475-525 | An MCU adds at most 420 bytes for each of its blocks and 4 for a restart, stuffing and padding included |
| CompressRun.AllModes | dawitsv2-mid/middle/jpeg-6b/jccoefct.c:142-395 | The same scan from the input, while loading, and from the buffer: three times the same bytes, or three failures |
| CompressRun.ModesAgree | dawitsv2-mid/middle/jpeg-6b/jccoefct.c:142-395 | Single-pass and buffered runs at the same position have delivered the same MCUs and committed the same bytes, whatever their suspensions |
| CompressRun.CompressOptimized | dawitsv2-mid/middle/jpeg-6b/jccoefct.c:221-395 | With tables from the first pass the second pass cannot fail, and its output decodes to all MCUs of the image; fails exactly if a coefficient is out of range or an AC tree is too high |
| ScanScript.ValidateScript | dawitsv2-mid/middle/jpeg-6b/jcmaster.c:129-261 | Accepts exactly the scripts that are progressive or sequential as declared, and tells which |
| ScanScript.ProgressiveIsInTurn | dawitsv2-mid/middle/jpeg-6b/jcmaster.c:196-226 | Checking each scan against the last bit positions is the same as the declarative rules for scripts |
| ScanScript.RefinementChain | dawitsv2-mid/middle/jpeg-6b/jcmaster.c:214-225 | In an accepted script the scans of a coefficient form a chain (0, a), (a, a-1), (a-1, a-2), ...: the t-th after the first ends t bits lower |
| ScanScript.PlanesSentOnce | dawitsv2-mid/middle/jpeg-6b/jcmaster.c:214-225 | In an accepted script the bit planes of a coefficient from its first to its last scan are sent by exactly one scan each, and no others are sent |
| ScanScript.DcBeforeAc | dawitsv2-mid/middle/jpeg-6b/jcmaster.c:212-213 | In an accepted script no AC coefficient comes before its component's DC |
| SimpleProgression.MakeScript | dawitsv2-mid/middle/jpeg-6b/jcparam.c:536-608 | The script has exactly the precomputed number of scans and fits the space |
| SimpleProgression.ColorScans | dawitsv2-mid/middle/jpeg-6b/jcparam.c:576-596 | The ten scans for YCbCr images |
| SimpleProgression.GeneralScans | dawitsv2-mid/middle/jpeg-6b/jcparam.c:597-607 | The scans for all other images, number by number |
| SimpleProgression.ScriptIsComplete | dawitsv2-mid/middle/jpeg-6b/jcparam.c:579-607 | For 1 to 10 components the script is accepted, and every coefficient ends at bit 0 |
| PassControl.Compressor.InitMasterControl | dawitsv2-mid/middle/jpeg-6b/jcmaster.c:542-590 | Refused exactly for an illegal image or script; otherwise first pass and number of passes follow from script and settings, a progressive script forcing optimisation |
| PassControl.Compressor.SelectModules | dawitsv2-mid/middle/jpeg-6b/jcinit.c:29-72 | Sets up the other modules in order; arithmetic coding always ends in its error, anything else only if a module objects |
| PassControl.Compressor.SetUpScan | dawitsv2-mid/middle/jpeg-6b/jcmaster.c:266-389 | The components and MCUs of the current scan; the error is exactly that of too many components without a script, or of an MCU that is too big |
| PassControl.Compressor.PrepareForPass | dawitsv2-mid/middle/jpeg-6b/jcmaster.c:401-475 | Starts the planned pass, skipping statistics for a DC refinement scan, and sets the last-pass flag exactly for the output of the last scan; otherwise stops at the first event of the plan that ends in an error |
| PassControl.Compressor.FinishPassMaster | dawitsv2-mid/middle/jpeg-6b/jcmaster.c:503-535 | After the last pass everything is done, after any other pass the next one is the planned one; an error exactly if the entropy module cannot end the pass, as when its flush is refused |
| PassControl.Compressor.StartCompress | dawitsv2-mid/middle/jpeg-6b/jcapistd.c:37-58 | Refused exactly in the wrong state, for an illegal image or an illegal script; otherwise the main pass is prepared, or the run stops at the first event up to its start that ends in an error |
| PassControl.Compressor.WriteScanlines | dawitsv2-mid/middle/jpeg-6b/jcapistd.c:76-111 | Headers are written at the first call, lines beyond the image are ignored, and the return value is the number of lines taken |
| PassControl.Compressor.WriteCoefficients | dawitsv2-mid/middle/jpeg-6b/jctrans.c:37-52 | The same for transcoding, which starts without a main pass, before the first planned pass |
| PassControl.Compressor.FinishCompress | dawitsv2-mid/middle/jpeg-6b/jcapimin.c:146-181 | Ends, counts exactly total_passes passes, and leaves exactly the planned events; refused exactly in the wrong state or with lines missing, or stops at the first event of the plan that ends in an error |
| PassControl.Compressor.CompressImage | dawitsv2-mid/middle/jpeg-6b/jcapimin.c:146-181 | Complete exactly if image and script are legal, all lines are delivered and no event of the plan ends in an error; too little data exactly if all went well up to the last line delivered; otherwise the error is that of the first event that ends in one |
| PassPlan.RunHeaders | dawitsv2-mid/middle/jpeg-6b/jcmaster.c:449-463 | In a complete run the frame header comes once and first, the scan headers once each in order, the parameters of each scan are computed once, and the passes are the planned ones |
| PassPlan.PassCount | dawitsv2-mid/middle/jpeg-6b/jcmaster.c:432-446 | The passes run are the counted ones less the skipped statistics passes |
| PassPlan.DataIs | dawitsv2-mid/middle/jpeg-6b/jcapimin.c:159-172 | A pass takes all scanlines or all iMCU rows, in order |
| PassPlan.PlainRun | dawitsv2-mid/middle/jpeg-6b/jcmaster.c:408-434 | All events of a run with one scan and without optimisation |
| PassPlan.FirstScanOptimized | dawitsv2-mid/middle/jpeg-6b/jcmaster.c:408-468 | The events for the first scan with optimisation: statistics from the scanlines, then headers and output from the buffer |
| PassPlan.LaterScanOptimized | dawitsv2-mid/middle/jpeg-6b/jcmaster.c:436-468 | The events for a later scan with a statistics pass |
| PassPlan.LaterScan | dawitsv2-mid/middle/jpeg-6b/jcmaster.c:453-468 | The events for a later scan without one |
| PassPlan.Plan.StoppedIsUnique | dawitsv2-mid/middle/jpeg-6b/jcapimin.c:146-181 | A run that stops does so at one event only, with one error, and is then not complete |
| PassPlan.Plan.WhenSmooth | dawitsv2-mid/middle/jpeg-6b/jcmaster.c:293-296 | No event ends in an error exactly if coding is not arithmetic, the parameters of every scan are right, and all other modules accept |
| ImageRun.SameImage | dawitsv2-mid/middle/jpeg-6b/jccoefct.c:244-395 | What the main pass has left in the buffer serves the passes of every scan |
| ImageRun.Image.TablesOf | dawitsv2-mid/middle/jpeg-6b/jchuff.c:124-156 | Every component of a scan is coded with the tables it names |
| ImageRun.CompressWhole | dawitsv2-mid/middle/jpeg-6b/jcapimin.c:146-181 | A whole image, each scan with the tables from the statistics pass before it: complete exactly if the settings are legal and every scan can be coded, and then the data of every scan decodes to its MCUs |
| ImageRecovery.ScanDeterminesBlocks | dawitsv2-mid/middle/jpeg-6b/jccoefct.c:153-217 | The MCUs of a scan determine every block of its components, interleaved or not |
| ImageRecovery.OutputDeterminesImage | dawitsv2-mid/middle/jpeg-6b/jccoefct.c:340-395 | Two images for which the same data is written are the same, block by block |
| GifBits.CodeReader.Refill | dawitsv2-mid/middle/SDL_image/IMG_gif.c:387-395 | Unread bits move to the front and the next sub-block follows them without a gap |
| GifBits.CodeReader.GetCode | dawitsv2-mid/middle/SDL_image/IMG_gif.c:367-404 | Returns the number in the buffer, which is the next code of the concatenated sub-blocks whenever buffer and next sub-block complete it, and is made of the last bits and the tail when the data ends inside it |
| GifBits.AlwaysEnough | dawitsv2-mid/middle/SDL_image/IMG_gif.c:380-395 | If every sub-block but the last has two bytes or more, every code is complete while enough bits are left |
| GifBits.AlwaysLegible | dawitsv2-mid/middle/SDL_image/IMG_gif.c:376-397 | And the code the data ends in, if it ends inside one, is read as the bits left followed by those of the last sub-block; then comes the end |
| GifBits.ShortSubBlocks | dawitsv2-mid/middle/SDL_image/IMG_gif.c:381-395 | Two sub-blocks of one byte hold the 9-bit code 0x1FF, and GetCode returns 0x0FF or 0x1FF as an earlier image has left it |
| GifLzw.AddEntry | dawitsv2-mid/middle/SDL_image/IMG_gif.c:497-506 | The new table entry is the new string of the dictionary, and its link leads to a smaller code |
| GifLzw.LzwDecoder.PushString | dawitsv2-mid/middle/SDL_image/IMG_gif.c:484-495 | Following the links ends, stays inside the stack, and pushes the code's string |
| GifLzw.WidthStep | dawitsv2-mid/middle/SDL_image/IMG_gif.c:500-505 | The code width grows exactly when the next free code needs another bit, up to 12 |
| GifLzw.LzwDecoder.constructor | dawitsv2-mid/middle/SDL_image/IMG_gif.c:419-440 | A decoder starts with the output of the plain decoder still to come |
| GifLzw.LzwDecoder.ReadByte | dawitsv2-mid/middle/SDL_image/IMG_gif.c:406-513 | Returns the next byte of the plain dictionary decoder, or the end exactly when there is none, with or without an end code |
| GifLzw.ReadImage | dawitsv2-mid/middle/SDL_image/IMG_gif.c:550-556 | All bytes read from well-formed data are the output of the plain dictionary decoder |
| LzwEncoder.DefinedCode | dawitsv2-mid/middle/SDL_image/IMG_gif.c:484-499 | The code that is just being defined puts out the string it has in the dictionary from then on: the previous string and its own first byte |
| LzwEncoder.RoundTrip | dawitsv2-mid/middle/SDL_image/IMG_gif.c:406-513 | What the compressor of Appendix F of GIF89a writes for an image, wherever it clears its dictionary, is decoded to that image |
| LzwEncoder.ReadCompressed | dawitsv2-mid/middle/SDL_image/IMG_gif.c:550-556 | The decompressor gives back every image so compressed, however the data is cut into sub-blocks of two bytes or more |
| GifLzw.EndCodeFromStart | dawitsv2-mid/middle/SDL_image/IMG_gif.c:452-476 | Data with an end code is decoded as the GIF89a specification says, whatever the buffer holds |
| GifLzw.CutShort | dawitsv2-mid/middle/SDL_image/IMG_gif.c:376-397 | Data that ends inside a code makes the decoder put out one string for a code nobody sent |
| Md5.RoundFunctions | repack_tool/src/md5.c:213-291 | Bit by bit, F and G choose between two words by a third, H is the parity, and I compares y with x or not z |
| Md5.RoundOfStep | repack_tool/src/md5.c:210-312 | Which of the functions a step uses, and that G is F with its arguments in another order |
| Words.RotateBits | repack_tool/src/md5.c:208 | Rotating takes bits away on the left and puts the same bits in on the right |
| Md5.InitialBytes | repack_tool/src/md5.c:324-330 | The registers start as the bytes 01 23 45 67 89 ab cd ef fe dc ba 98 76 54 32 10 of section 3.3 of RFC 1321 |
| Md5.WordsOfBytes | repack_tool/src/md5.c:183-184 | The words of a block have its bytes, least significant first |
| Md5.FourSteps | repack_tool/src/md5.c:210-312 | Four SET operations are four steps of the step table of section 3.4 of RFC 1321 |
| Md5.Round1 | repack_tool/src/md5.c:210-234 | The sixteen unrolled operations of round 1 are steps 1 to 16 of RFC 1321, whose functions RoundFunctions gives bit by bit |
| Md5.Round2 | repack_tool/src/md5.c:236-260 | The sixteen unrolled operations of round 2 are steps 17 to 32 of RFC 1321 |
| Md5.Round3 | repack_tool/src/md5.c:262-286 | The sixteen unrolled operations of round 3 are steps 33 to 48 of RFC 1321 |
| Md5.Round4 | repack_tool/src/md5.c:288-312 | The sixteen unrolled operations of round 4 are steps 49 to 64 of RFC 1321 |
| Md5.Md5State.Process | repack_tool/src/md5.c:165-321 | Applies the block function of RFC 1321 to the registers |
| Md5.AbsorbAppend | repack_tool/src/md5.c:333-369 | Absorbing a message piece by piece is absorbing the whole |
| Md5.CarryOver | repack_tool/src/md5.c:344-348 | The two count words hold the length in bits modulo 2^64, carry included |
| Md5.Md5State.Append | repack_tool/src/md5.c:333-369 | Whatever the split, registers, buffer and count are those of the message so far |
| Md5.Md5State.Finish | repack_tool/src/md5.c:371-392 | The digest is that of the padded message of sections 3.1 and 3.2 of RFC 1321 |
| Md5.PaddedParts | repack_tool/src/md5.c:374-389 | The padded message is the shortest one of whole blocks with a one bit, zero bits and the length in bits, least significant byte first |
| Md5.HashPieces | repack_tool/src/md5.c:323-392 | Every way of splitting a message gives the digest of the whole message |
| Q2Update.MaskAllTwice | repack_tool/src/Q2Crypt.c:37-45 | Masking twice gives back the longest prefix made of whole blocks |
| Q2Update.MaskAllBits | repack_tool/src/Q2Crypt.c:37-45 | Masking exchanges exactly the bits of the data that are ones in the table, which starts again with every block |
| Q2Update.SizeTagBytes | repack_tool/src/Q2Crypt.c:95 | The size tag holds the size, least significant byte first |
| Q2Update.CreateUpdate | repack_tool/src/Q2Crypt.c:47-103 | The file is header, size, masked blocks and digest, and the returned size is that of the data |
| Q2Update.DecryptUpdate | repack_tool/src/Q2Crypt.c:105-178 | Aborts exactly on a wrong size; otherwise unmasks every block the tag names, for whole blocks the digests match exactly when the file ends in the digest of its data, and the last check never fails |
| Q2Update.RoundTrip | repack_tool/src/Q2Crypt.c:47-178 | Unpacking a created update gives the archive's longest prefix of whole blocks, with matching digests |
| Raster.OpaqueLine | dawitsv2-mid/middle/SDL_gfx/SDL_gfxPrimitives.c:1511-1584 | Pixel k is written at major offset k and minor offset floor(k*dy/dx), with dx and dy counted in pixels |
| Raster.OpaqueEnds | dawitsv2-mid/middle/SDL_gfx/SDL_gfxPrimitives.c:1511-1584 | The opaque line starts at its first point and ends exactly at its last |
| Raster.BlendedLine | dawitsv2-mid/middle/SDL_gfx/SDL_gfxPrimitives.c:1586-1622 | Each pixel is within half a pixel of the ideal line, and the last one is exact |
| Raster.BlendedIsSymmetric | dawitsv2-mid/middle/SDL_gfx/SDL_gfxPrimitives.c:1596-1618 | A blended line has the same pixels in both drawing directions |
| Raster.FitsSixteenBits | dawitsv2-mid/middle/SDL_gfx/SDL_gfxPrimitives.c:1880-1884 | For the good radii no decision variable is changed by the wrap-around to 16 bits |
| Raster.PlottedAre | dawitsv2-mid/middle/SDL_gfx/SDL_gfxPrimitives.c:1966-1996 | What is plotted for some columns is exactly their pixels under the eight symmetries of the circle |
| Raster.TraceOnCircle | dawitsv2-mid/middle/SDL_gfx/SDL_gfxPrimitives.c:1976-2010 | For the good radii the 16-bit recurrence stays on the pixel nearest to the true circle |
| Raster.BadRadius | dawitsv2-mid/middle/SDL_gfx/SDL_gfxPrimitives.c:1976-2010 | For every other radius it leaves the circle, at the column after the first step down |
| Raster.CircleLoop | dawitsv2-mid/middle/SDL_gfx/SDL_gfxPrimitives.c:1962-2010 | Plots, column by column until the octant is complete, reflections of the pixels of the 16-bit recurrence; they are those nearest to the true circle exactly for the good radii |

## Left out

- Progressive entropy coding, the DCT routines, color conversion, downsampling and marker contents: the DCT is any function of component and block position, and headers are events without contents.
- Row buffering in `jcmainct.c` and swapping of virtual arrays: the input strip and the buffered image are directly at hand.
- OptimalTable.GenOptimalTable: requires a symbol to code, at most 255 coded symbols with the pseudo-symbol, and counts whose every merge the search sees (`HuffmanDepth.CountsFit`, which the code sizes need to be optimal); scans have the first two properties, and all scans of up to 15,873,015 blocks the third.
- Statistics.StatisticsPass.FinishPass: carries the condition `CountsFit` for the slots in use.
- CompressRun.CompressOptimized: carries the condition `CountsFit` for the AC slots, and its destination never refuses, as the compressor itself demands in passes after the first.
- BitWriter.Destination.EmptyOutputBuffer: a destination refuses always or never; one that changes its mind inside an MCU would send bytes twice, which the interface rules out.
- ImageRun.CompressWhole: one with progression or without optimisation is not put together; the markers are any bytes, the destination never refuses, and it carries `CountsFit` for the AC slots.
- HuffEncoder.HuffEntropyEncoder.EncodeMcu: DC predictors are whole numbers; coefficients of more than 16 bits, which the encoder cannot be given, are not wrapped.
- PassControl.Compressor.WriteScanlines: raw-data input is not modelled, nor are warnings and progress monitoring; what color conversion, downsampling, DCT and memory management object to is an answer from outside (`Compressor.says`).
- GifBits.CodeReader.GetCode: a read error in the middle of a sub-block is not modelled; the data always ends with a terminator.
- GifLzw.LzwDecoder.ReadByte: the codes must be well formed (known or next free, a root after each clear code, an initial size of 2 to 8 as in GIF89a), every sub-block but the last has two bytes or more, and data without an end code has two bytes in the last one too.
- GifLzw.ReadImage: the placement of the bytes in the image, interlaced or not, and the stop at the last row are not modelled.
- Md5.Md5State.Append: one call appends fewer than 2^31 bytes, the range of its parameter.
- Q2Update.CreateUpdate: the size of the file fits an int, as its return type and `ftell` comparison need (`Q2Update.FitsInt`).
- Q2Update.DecryptUpdate: the file has at least the 56 bytes up to its size tag; for a size that is not a multiple of 128 the last block written and the digest comparison are not described.
- Raster.OpaqueLine: addresses only; what a store writes for each pixel format, clipping and the straight-line special cases are not modelled.
- Raster.CircleLoop: for the other radii it is stated where the loop goes wrong first, not what it draws after that; clipping of single pixels is not modelled.
- Clipping with floating point, anti-aliased drawing, text rendering and the other image loaders.
