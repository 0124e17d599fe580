# Verified model of the Supvan label-printer driver

The driver turns a page of pixels into thermal-printer commands. This project models the three parts
that carry the weight and proves what they promise:

* **Halftoning** (`Halftone`, `ErrorCarry`, `Stability`, `HalftoneLaws`, `ToneBalance`, `Dithering`). A grey page is
  diffused to 1 bit per pixel through a ring of three error rows that is updated in place. The ring is
  proved to compute the same ink as diffusion over a full error plane, the carried error is bounded
  for every image and kernel, and the tone of the page is shown to be conserved up to what falls off
  the sides, what short lines leave unread and what is still in the ring.
* **Raster to wire** (`Bytes`, `Bitmap`, `Buffers`, `Tiling`, `Grouping`, `Compress`,
  `GreedyLimits`, `Framing`, `Transports`, `TwoColour`, `Patterns`, `PagePipeline`, `Grayscale`, `Jobs`). A page is repacked,
  centred under the head, tiled into 4096-byte print buffers with a density per band, packed greedily
  into LZMA blocks and cut into frames or reports. `Framing`, `Transports`, `Compress`, `PagePipeline`,
  `Tiling` and `Buffers` also define how the firmware reads all this back: unframe, cut to the length
  the commands announced, decompress, split at 4096 bytes, take as many lines as the header says, burn
  them at the header's trims. The page theorems say that decompressing the blocks sent gives exactly
  the intended dots, and `Jobs.CopyReachesPaper` says the same of the blocks put together from the
  commands and the frames or reports themselves.
* **Print protocol** (`Protocol`, `Printing`, `SharedHandle`). The driver's print run is executed
  against a device that may answer anything to any operation (the reply to the n-th operation is an
  arbitrary function of n). `Protocol.Safe` says declaratively which operation may follow which past;
  the run keeps it whatever the device does, and success and every kind of failure are tied to what
  was seen on the wire. `SharedHandle` interleaves tasks that use one printer, each directly or all
  behind a mutex, with the flag that status queries look at before they start.

Objects that the driver updates in place are classes (`Dithering.Ditherer`, `Transports.SppCodec`,
`Transports.UsbHidTransport`, `Printing.Printer`, `Jobs.KsJob`) and its loops are loops. Each is proved
against a specification on values, and the lemmas prove what the driver's documentation promises of
that specification. Bytes and 16-bit words are ranges of the integers, with truncation written out.

How the main results fit together:

* `Dithering.Ditherer.Line` says dot `d` of a line gains ink exactly when source pixel
  `width - 1 - d` is inked by `Halftone.Inked`, a recursive definition over the whole page that knows
  no ring. `HalftoneLaws` says of that definition, without its tables, where a pixel's error comes from
  and what becomes of it; `Stability` and `ToneBalance` bound it. So all of this holds of the ring.
* `Grayscale.BuildGrayscale` and `Jobs.PrintRaster` join the halftone, the placement, the tiling, the
  packing and the print run: what the firmware decodes from the blocks that went out is the page, and a
  fresh job fed its rows in order prints the halftone of the whole of it.
* `Printing.Printer.PrintCompressed` states safety, the bound on operations and the meaning of its
  result; the lemmas of `Protocol` derive the individual guarantees from safety.

Five promises hold only under a condition. For four of them the condition is exact; for greedy packing it
is sufficient, and an input shows what happens without it:

* Both transports announce a block's length in 16 bits (USB in the header, SPP in BUF_FULL), so a block
  arrives whole exactly when it is shorter than 65536 bytes (`Transports.TransferDelivers`), and
  `Transports.LengthWraps` is a block that either loses. What a block of at most 255 packets comes to
  is the same on both (`Transports.TransportsAgree`). Packing keeps every block of several buffers
  within 4096 bytes, so only a single buffer that the codec blows up could be cut.
* A two-colour page burns as intended exactly when its line width fits 8 bits and its length 16
  (`TwoColour.BuildTwoColour`).
* Greedy packing is the shortest when what is left of a fitting group without its first buffers also
  fits (`Compress.PackingIsShortest`). `GreedyLimits.GreedyCanLose` gives a lossless codec and six
  buffers for which a single exception to this costs a block.
* Operations of tasks that reach the printer without the mutex stay whole under every interleaving
  exactly when no task has an operation of several events while another has anything to send
  (`SharedHandle.OwnedRunsStayWhole`). The `printing` flag does not change the condition: a query that
  looks at it just before a print sets it goes out in the middle of the print, as does an identify
  request, which does not look.
* That flag is set throughout every print on its device, so that queries give way to it, exactly when one
  task does all the printing there (`SharedHandle.FlagCoversPrints`): with two, the first to finish clears
  it in the middle of the other's print (`SharedHandle.FlagCanLie`).

Where the driver's documentation and code differ the model follows the code. The comment on
`transfer_compressed` (`crates/supvan-proto/src/printer.rs:315-319`) speaks of one transfer for all
buffers of a page, while the code sends one transfer per block. The sequence in
`docs/PROTOCOL.md:506-516` puts BUF_FULL before the data and ends a print with `STOP_PRINT`, while the
code sends BUF_FULL after the data and nothing after the last poll. The `STOP_PRINT` branch
(`crates/supvan-proto/src/printer.rs:443-449`) cannot be reached, because the wait before it has
already returned an error for the same flags. `Printing.Printer.WaitRoom` asserts this, and safety
forbids `STOP_PRINT` altogether.

## Model

| member | source | states |
|---|---|---|
| Dithering.Ditherer.Line | crates/supvan-proto/src/dither.rs:146-216 | the in-place three-row ring inks exactly the pixels that diffusion over a full error plane of every line fed so far inks, mirrored, for every kernel and every line length; the ordered mode keeps no state and inks by threshold alone; ink already in the line stays |
| Dithering.Ditherer.constructor | crates/supvan-proto/src/dither.rs:132-140 | a fresh ring carries no error and corresponds to an empty page |
| Dithering.Ditherer.Serve | crates/supvan-proto/src/dither.rs:202-209 | one neighbour's share goes to exactly one ring cell, or nowhere when it falls off the page |
| Dithering.Ditherer.ServeNext | crates/supvan-proto/src/dither.rs:202-209 | after serving one more neighbour of the pixel the ring again equals the error in flight on the plane, one tap further along |
| Dithering.Ditherer.Spread | crates/supvan-proto/src/dither.rs:202-210 | after all neighbours of a pixel the ring holds the error in flight at the next pixel |
| Dithering.Ditherer.DiffusePixel | crates/supvan-proto/src/dither.rs:173-211 | the value read from the ring is the plane's value at that pixel: its mirrored dot is inked just when the plane inks it |
| Dithering.Ditherer.NextLine | crates/supvan-proto/src/dither.rs:213-215 | clearing the spent row and rotating leaves the ring holding the error in flight at the start of the next row |
| Dithering.Ditherer.DiffuseLine | crates/supvan-proto/src/dither.rs:166-216 | a whole line keeps ring and plane in step and plots exactly the plane's ink |
| Dithering.Ditherer.BayerLine | crates/supvan-proto/src/dither.rs:155-164 | ink exactly where the pixel's linear tone is below the threshold at the mirrored position |
| Dithering.Ditherer.RingBalancesTone | crates/supvan-proto/src/dither.rs:173-215 | between lines of any lengths, tone fed minus tone printed is the tone dropped at the sides, the tone stranded past short lines and the sum of the ring's own cells |
| Dithering.SetMsb | crates/supvan-proto/src/dither.rs:196-199 | lights one MSB-first dot and changes no other |
| ErrorCarry.ServeTap | crates/supvan-proto/src/dither.rs:202-210 | serving tap k changes the error waiting at its target cell by the weighted error and at no other cell |
| ErrorCarry.NextRow | crates/supvan-proto/src/dither.rs:213-215 | what waits d + 1 rows below the end of a row waits d rows below the start of the next |
| ErrorCarry.OutOfReach | crates/supvan-proto/src/dither.rs:115-116 | at the start of a row nothing has yet been sent two or more rows down, so three ring rows are enough and the cleared one may be reused |
| ErrorCarry.AllArrived | crates/supvan-proto/src/dither.rs:179-179 | when a pixel is reached everything its neighbours sent has arrived: the waiting error is the weighted sum of their errors |
| ErrorCarry.PrefixError | crates/supvan-proto/src/dither.rs:118-121 | rows fed later change neither the error nor the ink of earlier rows |
| Halftone.NeighbourAt | crates/supvan-proto/src/dither.rs:202-210 | the j-th contribution to a pixel is the error of the pixel whose j-th tap points at it, none from off the page |
| Stability.CarriedErrorIsStable | crates/supvan-proto/src/dither.rs:84-108 | in every image the error arriving at any pixel lies in [-127, 128) for Floyd-Steinberg, [-95.25, 96) for Atkinson and [-8.5 * 15/16, 8.5 * 15/16) for the vendor kernel |
| Stability.IncomingContained | crates/supvan-proto/src/dither.rs:179-210 | any residue interval that a kernel maps into itself bounds the error everywhere on every page |
| Stability.VendorNearest | crates/supvan-proto/src/dither.rs:183-189 | rounding and clamping to sixteen levels leaves a residue within half a step on every value the stable range allows |
| Stability.VendorInk | crates/supvan-proto/src/dither.rs:183-189 | choosing one of sixteen levels and then thresholding at 125 is the same as thresholding the value at 127.5 |
| Stability.ExtremesAreExact | crates/supvan-proto/src/dither.rs:174-199 | in every image black is inked and white is blank at every pixel; Atkinson holds linear tones up to 32 and from 224, the vendor kernel source values up to 119 and from 136 |
| Stability.BayerExtremes | crates/supvan-proto/src/dither.rs:155-162 | the ordered mode inks black and leaves white at every position |
| HalftoneLaws.FloydSteinbergIncoming | crates/supvan-proto/src/dither.rs:84-89 | in every image a pixel receives 7/16 of its left neighbour's error and 3/16, 5/16 and 1/16 of those above right, above and above left, nothing from off the page |
| HalftoneLaws.AtkinsonIncoming | crates/supvan-proto/src/dither.rs:91-98 | an eighth each from the two on the left, the three above and the one two rows above |
| HalftoneLaws.VendorIncoming | crates/supvan-proto/src/dither.rs:103-108 | 5/16 from the left and 3/16, 6/16 and 1/16 from above right, above and above left |
| HalftoneLaws.BlackOrWhite | crates/supvan-proto/src/dither.rs:176-201 | Floyd-Steinberg and Atkinson: table entry plus incoming error is inked just below 128, and the error passed on is what that lies above 0 or 255 |
| HalftoneLaws.NearestOfSixteen | crates/supvan-proto/src/dither.rs:174-201 | the vendor's: grey plus incoming error is the nearest of sixteen greys 17 apart plus an error within half a step, inked just for the darker eight |
| HalftoneLaws.OrderedThreshold | crates/supvan-proto/src/dither.rs:29-35 | the threshold at a dot is 8 and 16 more per rank of its position in a 2x2 pattern of 2x2 patterns |
| HalftoneLaws.TileKeepsTone | crates/supvan-proto/src/dither.rs:155-162 | the ordered mode keeps tone: every aligned 4x4 tile of one grey of table entry t leaves exactly (t + 8) / 16 dots blank |
| HalftoneLaws.TableRises | crates/supvan-proto/src/dither.rs:3-27 | the tone table never falls and rises by at most one per grey from 34 on, two from 5 on |
| HalftoneLaws.TableIsMonotone | crates/supvan-proto/src/dither.rs:3-27 | a lighter grey never has a darker entry |
| HalftoneLaws.TableKeyMappings | crates/supvan-proto/src/dither.rs:10-11 | the documented points of the curve: black, half, three quarters, seven eighths, white |
| ToneBalance.ToneIsConserved | crates/supvan-proto/src/dither.rs:154-215 | for every kernel, image, line lengths and number of rows: tone in minus tone printed equals error dropped plus error stranded in cells a short line leaves unread plus error in flight, exactly |
| ToneBalance.ToneErrorIsPerimeterSized | crates/supvan-proto/src/dither.rs:84-89 | Floyd-Steinberg: the sum of the table entries of H rows of a W-wide image and 255 per blank pixel differ by at most 88 H + 72 W, and 128 more per pixel missing from a short line |
| ToneBalance.FullLinesMissNothing | crates/supvan-proto/src/dither.rs:154-154 | with no line shorter than the page the bound is 88 H + 72 W |
| ToneBalance.FloydSteinbergDrops | crates/supvan-proto/src/dither.rs:202-208 | error is dropped only at the side edges: 3/16 of it on the left, 8/16 on the right |
| ToneBalance.RowBalance | crates/supvan-proto/src/dither.rs:173-211 | tone balances within a row, pixel by pixel |
| ToneBalance.CrossRow | crates/supvan-proto/src/dither.rs:213-215 | rotating the ring loses exactly what is stranded past the end of a short line |
| Bytes.OrBit | crates/supvan-proto/src/bitmap.rs:45-45 | or-ing in bit k sets bit k and keeps every other |
| Bytes.OrDot | crates/supvan-proto/src/bitmap.rs:133-133 | lights one dot of a column-major bitmap and no other |
| Bitmap.RasterToColumnMajor | crates/supvan-proto/src/bitmap.rs:23-51 | dot x of column y is set exactly when pixel x of row y is, pixels past a short input being clear |
| Bitmap.CenterInPrinthead | crates/supvan-proto/src/bitmap.rs:66-140 | every dot of the canvas is the page's dot shifted by the centring offset, cropped to the middle window when the page is wider than the head carries |
| Bitmap.CropUndoesPad | crates/supvan-proto/src/bitmap.rs:72-140 | padding a whole-byte page to any wider head and cropping back gives the same bytes |
| Bitmap.PlacementIsCentred | crates/supvan-proto/src/bitmap.rs:72-114 | the head carries its whole bytes; both sides gain or lose the same number of dots, an odd one going to the right; a page that fits loses none |
| Buffers.BuildPrintBuffer | crates/supvan-proto/src/buffer.rs:190-239 | the firmware's reading of the buffer gives back flags, cut modes, trims, counts, margins and data, unused bits and bytes are zero, and its checksum holds |
| Buffers.ChecksumOf | crates/supvan-proto/src/buffer.rs:226-236 | the sum is the header plus one byte per stride boundary inside the buffer, and fits 16 bits for every header |
| Buffers.FillHeader | crates/supvan-proto/src/buffer.rs:204-220 | every header byte, with margins clamped to 1..900 and red to 15 |
| Buffers.RegBitsDecode | crates/supvan-proto/src/buffer.rs:46-69 | the packed page bits decode to the flags they were built from, cut mode 0, first cut 2 for two colours only, black density modulo 16 |
| Buffers.StrideSumBound | crates/supvan-proto/src/buffer.rs:229-235 | boundaries past the buffer add nothing, whatever line count the header claims |
| Buffers.Strides | crates/supvan-proto/src/buffer.rs:227-229 | exactly the 256-byte boundaries that header and data together reach are counted |
| Tiling.SplitIntoBandedBuffers | crates/supvan-proto/src/buffer.rs:283-350 | read back, the buffers' lines are exactly columns margin .. margin + total of the image (blank past its end), every column at its own band's trims, cut greedily at capacity; page start only on the first, page and print end only on the last; nothing exceeds 4074 bytes |
| Tiling.SplitIntoBuffers | crates/supvan-proto/src/buffer.rs:256-274 | the same for one density over all columns between the margins; the unchecked subtraction overflows exactly when the margins exceed the page |
| Tiling.CutBand | crates/supvan-proto/src/buffer.rs:299-306 | one band becomes consecutive chunks of at most one buffer's columns, all at the band's density; the loop ends |
| Tiling.CutBands | crates/supvan-proto/src/buffer.rs:295-307 | the chunks of all bands lie end to end and cover every column once |
| Tiling.BuildChunk | crates/supvan-proto/src/buffer.rs:320-348 | a chunk's buffer carries exactly its columns, flags, trims and margins |
| Tiling.FillChunks | crates/supvan-proto/src/buffer.rs:317-349 | the buffers in order carry all chunks |
| Tiling.Capacity | crates/supvan-proto/src/buffer.rs:291-293 | a buffer holds at least 7 columns for every line width and plane count |
| Tiling.BandsOnlyChangeTrims | crates/supvan-proto/src/buffer.rs:276-282 | two bandings with the same total decode to the same image |
| Tiling.EvenBandTrims | crates/supvan-proto/src/buffer.rs:299-306 | with equal bands, column r of band q is burned at band q's trims |
| Tiling.ColumnsDots | crates/supvan-proto/src/buffer.rs:322-326 | the dots of a run of columns are those of the image, shifted, clear past its end |
| Tiling.PartCarries | crates/supvan-proto/src/buffer.rs:317-327 | each buffer's payload is the range of columns that follows those of the buffers ahead of it |
| Grouping.GreedyStaysAhead | crates/supvan-proto/src/compress.rs:117-142 | after any number of groups the greedy cut has covered at least as much as any other |
| Grouping.GreedyIsOptimal | crates/supvan-proto/src/compress.rs:117-142 | if what is left of a fitting group without its first items fits, no in-order cut into groups of at most four that fit or are single has fewer groups |
| Grouping.GreedyLength | crates/supvan-proto/src/compress.rs:117-142 | the greedy cut is unique |
| GreedyLimits.GreedyCanLose | crates/supvan-proto/src/compress.rs:110-152 | for a lossless codec and six buffers of which every group fits but one, every packing has three blocks though a cut into two exists |
| GreedyLimits.AllButOneFit | crates/supvan-proto/src/compress.rs:120-126 | for them every group of at most four fits 4096 bytes but the last two buffers by themselves |
| Compress.RoundTrip | crates/supvan-proto/src/compress.rs:46-83 | patching in the definite size and restoring the sentinel decompresses to the original data, and a reader of the size field gets its length |
| Compress.PackGroup | crates/supvan-proto/src/compress.rs:120-139 | the group sent is the longest of at most four that fits the receive buffer, or a single buffer |
| Compress.CompressBuffers | crates/supvan-proto/src/compress.rs:110-152 | the blocks are the greedy in-order cut of all buffers; the mean is the whole part of their bytes, laid end to end, per buffer; it fails only on no buffers or when the codec fails on a group |
| Compress.PackingIsLossless | crates/supvan-proto/src/compress.rs:117-142 | decompressing the blocks in order gives back the buffers in order |
| Compress.BlocksFit | crates/supvan-proto/src/compress.rs:3-9 | every block covers one to four buffers and is at most 4096 bytes unless it holds a single buffer |
| Compress.PackedIsShort | crates/supvan-proto/src/compress.rs:124-137 | if no single buffer's stream reaches 65536 bytes, no block does |
| Compress.PackingIsShortest | crates/supvan-proto/src/compress.rs:110-142 | under the condition on fits, the blocks of a packing are no more than the groups of any other admissible cut of the buffers |
| Framing.MakeDataPacket | crates/supvan-proto/src/data.rs:28-44 | the packet carries its zero-padded chunk, index and count under a valid checksum |
| Framing.WrapDataFrame | crates/supvan-proto/src/data.rs:55-64 | the frame has a valid header and unwraps to the packet |
| Framing.BuildDataFrames | crates/supvan-proto/src/data.rs:69-83 | frame i carries chunk i, numbered and counted modulo 256; all chunks are there and no frame is without payload |
| Framing.SingleByteChangeIsDetected | crates/supvan-proto/src/data.rs:38-42 | changing any one byte the checksum covers invalidates the packet |
| Framing.FramesDeliver | crates/supvan-proto/src/data.rs:66-83 | for at most 255 packets, reassembly by index and cutting to a told length gives that much of the payload, in whatever order the frames arrive |
| Transports.SppCodec.SendBulkData | crates/supvan-proto/src/spp_pipe.rs:79-101 | every frame goes out in order, each awaited exactly when the link acknowledges and it is not the unrequested last; it stops at the first refused send |
| Transports.UsbHidTransport.SendBulkData | crates/supvan-proto/src/usb_transport.rs:147-168 | the payload goes out as consecutive zero-padded 64-byte reports, none without payload; it fails only at a report whose write, or for the requested last answer read, fails; the result is that answer |
| Transports.UsbHidTransport.WriteReport | crates/supvan-proto/src/hidraw.rs:36-52 | one more report, byte for byte the data and then zeros, and none before it changed |
| Transports.UsbHidTransport.SendAndRecv | crates/supvan-proto/src/usb_transport.rs:73-83 | one report and the answer read after it; an error exactly when the write or the read fails |
| Transports.HearsPrefix | crates/supvan-proto/src/printer.rs:320-361 | from the commands' own fields the device gets the block up to its length modulo 65536: over USB always, over SPP up to 255 packets |
| Transports.TransferDelivers | crates/supvan-proto/src/printer.rs:320-361 | on either transport a block arrives whole if and only if it is shorter than 65536 bytes |
| Transports.TransportsAgree | crates/supvan-proto/src/spp_pipe.rs:70-101 | whatever a block of at most 255 packets comes to over SPP, it comes to over USB |
| Transports.LengthWraps | crates/supvan-proto/src/printer.rs:321-321 | a concrete block of 132 packets that both transports announce as empty and lose |
| Transports.RunIsHeard | crates/supvan-proto/src/printer.rs:432-457 | the blocks the device puts together from a run's commands and data are those sent if and only if each is shorter than 65536 bytes |
| Protocol.HeardIsSaid | crates/supvan-proto/src/status.rs:53-69 | what counts as idle, room, printing and done is exactly a poll answered with none of the eight error flags and the right of the other three |
| Protocol.StartsOnceWhenIdle | crates/supvan-proto/src/printer.rs:406-419 | in every safe run at most one START_PRINT, directly after a status with none of the eight error flags, not busy and not printing; never a STOP_PRINT |
| Protocol.TransfersOnlyWhenPrinting | crates/supvan-proto/src/printer.rs:418-432 | no header, data or BUF_FULL before a status after START_PRINT that was printing with none of the eight error flags |
| Protocol.BlocksGoIntoRoom | crates/supvan-proto/src/printer.rs:433-457 | each bulk header directly follows a status with room and none of the eight error flags; each block directly follows its own answered header |
| Protocol.BlocksGoInOrder | crates/supvan-proto/src/printer.rs:432-469 | the blocks sent are an in-order prefix of the job's, none repeated or skipped |
| Protocol.RunsStopAtTheFirstFault | crates/supvan-proto/src/printer.rs:401-404 | nothing follows a link failure, and a run begins with the only CHECK_DEVICE, which must be acknowledged |
| Protocol.CompletedSendsEveryBlock | crates/supvan-proto/src/printer.rs:332-361 | in a completed run every block is on the wire as header, data and BUF_FULL in a row, after a status with room |
| Protocol.CompletedIsDrained | crates/supvan-proto/src/printer.rs:478-491 | the last word of a completed run had none of the eight error flags and was not printing, not busy and not full |
| Protocol.OneSpeed | crates/supvan-proto/src/printer.rs:357-361 | every BUF_FULL of a safe run announces the run's one speed |
| Protocol.SentIsOnWire | crates/supvan-proto/src/printer.rs:348-348 | the bytes of bulk data on the wire are those of the blocks sent, end to end |
| Protocol.PollsAreSafe | crates/supvan-proto/src/printer.rs:100-104 | status polls keep any live run safe, send nothing and start nothing |
| Printing.Printer.PrintCompressed | crates/supvan-proto/src/printer.rs:381-508 | whatever the device answers: every operation was allowed when issued, at most 423 + 204 n of them; every BUF_FULL announces the given speed for one block and 20 for several; success means all n blocks complete and a last status idle, drained and error-free; each error has its cause at the end of the run, with the right number of futile polls where a wait ran out |
| Printing.Printer.PrintAt | crates/supvan-proto/src/printer.rs:401-507 | the steps of a print at one speed, with that safety, bound and meaning |
| Printing.Printer.WaitReady | crates/supvan-proto/src/printer.rs:253-265 | polls only, stopping at the first idle status or link failure, at most max of them |
| Printing.Printer.WaitPrinting | crates/supvan-proto/src/printer.rs:273-290 | stops at the first error flag, printing status or link failure, and says which |
| Printing.Printer.WaitBufferReady | crates/supvan-proto/src/printer.rs:293-313 | stops at the first error flag, status with room or link failure, and says which |
| Printing.Printer.TransferCompressed | crates/supvan-proto/src/printer.rs:320-370 | header, data, BUF_FULL as far as the link and the header's answer allow; success is all three |
| Printing.Printer.CheckDevice | crates/supvan-proto/src/printer.rs:94-98 | one operation; true exactly when it is acknowledged |
| Printing.Printer.QueryStatus | crates/supvan-proto/src/printer.rs:101-104 | one operation; the status heard, if any |
| Printing.Printer.AwaitIdle | crates/supvan-proto/src/printer.rs:406-416 | success leaves the run where START_PRINT is allowed |
| Printing.Printer.Prepare | crates/supvan-proto/src/printer.rs:401-416 | steps 1 and 2 keep the run safe and start nothing |
| Printing.Printer.StartAndWait | crates/supvan-proto/src/printer.rs:418-424 | success means the started printer reported printing; nothing was sent |
| Printing.Printer.WaitRoom | crates/supvan-proto/src/printer.rs:432-449 | success means the next block may be sent; the second test of the error flags never fires |
| Printing.Printer.TransferBlock | crates/supvan-proto/src/printer.rs:457-457 | success adds exactly this block, with its BUF_FULL, to those sent |
| Printing.Printer.SendBlock | crates/supvan-proto/src/printer.rs:432-469 | one round of the loop keeps the run safe and costs at most 204 operations |
| Printing.Printer.SendBlocks | crates/supvan-proto/src/printer.rs:432-469 | all blocks in order, or the first failure |
| Printing.Printer.AwaitCompletion | crates/supvan-proto/src/printer.rs:478-507 | success is a status idle, drained and without error; otherwise an error flag, a link failure, or 300 futile polls and a last one that tells a stuck buffer from a timeout |
| Printing.TransferIsSafe | crates/supvan-proto/src/printer.rs:320-370 | a transfer of the next block keeps the run safe however far it got |
| SharedHandle.SharedRunsAreSerial | crates/supvan-app/src/printer_device.rs:11-66 | under every interleaving of tasks behind the mutex the wire is whole operations plus at most one unfinished; each task's operations come in its own order, and only queries that found the flag set are given up |
| SharedHandle.NothingFallsInside | crates/supvan-app/src/printer_device.rs:51-66 | every finished operation occupies a contiguous stretch of the wire with nothing of another task in it |
| SharedHandle.SharedRunsStayWhole | crates/supvan-app/src/printer_device.rs:51-66 | behind the mutex no event ever lies between two events of another operation |
| SharedHandle.OwnedRunsStayWhole | crates/supvan-app/src/printer_device.rs:23-67 | without the mutex that holds for every interleaving if and only if no task has an operation of several events while another has anything to send, flag or no flag |
| SharedHandle.OverlapCanMix | crates/supvan-app/src/job.rs:211-213 | the schedule that mixes them, whatever the operations are and wherever they stand in their tasks |
| SharedHandle.FlagIsNoLock | crates/supvan-app/src/printer_device.rs:132-136 | a print and a status query on one device: the query can look at the flag just before the print sets it |
| SharedHandle.FlagIsTrue | crates/supvan-app/src/job.rs:211-213 | with one printing task on a device, its flag is set exactly while a print is going on, with or without the mutex |
| SharedHandle.QueriesGiveWay | crates/supvan-app/src/printer_device.rs:132-134 | then a query that looks during a print sends nothing and is given up |
| SharedHandle.FlagCanLie | crates/supvan-app/src/job.rs:211-213 | with two printing tasks on a device there is a schedule that leaves the flag clear in the middle of a print |
| SharedHandle.FlagCoversPrints | crates/supvan-app/src/job.rs:211-213 | the flag covers every print on a device, under every interleaving, if and only if one task does all the printing there |
| SharedHandle.RunsAreOrdered | crates/supvan-app/src/printer_device.rs:23-67 | with or without the mutex each task's events go out in its own order, none twice |
| TwoColour.RgbToPlanes | crates/supvan-proto/src/twocolor.rs:99-126 | a red dot is set exactly where the pixel's luminance is from 49 to 124, a black one exactly where it is at most 48, none past the data |
| TwoColour.PlanesPartitionInk | crates/supvan-proto/src/twocolor.rs:50-59 | the same plane by plane; so no dot is in both planes and together they are exactly the pixels darker than 125 |
| TwoColour.InterleavePlanes | crates/supvan-proto/src/twocolor.rs:71-89 | red line before black line for every column; refused exactly when a plane has the wrong length |
| TwoColour.PlanesComeBack | crates/supvan-proto/src/twocolor.rs:61-70 | de-interleaving any run of columns gives both planes' columns unchanged |
| TwoColour.BuildTwoColour | crates/supvan-proto/src/printer.rs:688-733 | read back plane by plane, the buffers burn red exactly where luminance is from 49 to 124 and black where it is at most 48, between the margins, at the trims, in whole pairs, if and only if the line width fits 8 bits and the length 16; the refusals hold exactly for short data, pages all margin and line widths that are zero in 8 bits |
| Patterns.LadderOf | crates/supvan-proto/src/bitmap.rs:247-254 | the strip is the label's width, at most the head's, centred with an odd dot on the right; bands share the printable length, as long as fits, and leave four columns blank |
| Patterns.CreateSwatchLadder | crates/supvan-proto/src/bitmap.rs:241-268 | a dot is inked exactly when it lies in the ink of one of the bands |
| Patterns.OneStep | crates/supvan-proto/src/bitmap.rs:251-265 | a column is inked only by the step whose band it lies in |
| Patterns.BuildSwatchLadder | crates/supvan-proto/src/printer.rs:560-597 | every column of step s is burned at densities[s], its ink is exactly the band's, and no column is lost; refused exactly for no densities or bands of no width |
| Patterns.TestPatternRegions | crates/supvan-proto/src/bitmap.rs:152-163 | the numbered regions lie end to end between the margins and have the widths of the tiler's cuts; the unchecked subtraction overflows exactly below one margin's height |
| Patterns.RegionsAreBuffers | crates/supvan-proto/src/printer.rs:537-538 | buffer i of the tiled pattern carries exactly the columns of region i, all of them and no others |
| PagePipeline.PackCanvas | crates/supvan-proto/src/buffer.rs:256-274 | a canvas between equal margins becomes blocks of its tiles, with their mean size per buffer of the page; the errors are margins beyond the page, nothing between them, or a failing codec |
| PagePipeline.BuildPage | crates/supvan-app/src/job.rs:182-207 | end to end: what the firmware decodes from the blocks is the page, dot for dot, centred or as its middle window, at the job's density; the mean returned is bytes per buffer of the page; it fails only for an empty page or a failing codec |
| PagePipeline.PageSurvives | crates/supvan-app/src/job.rs:182-207 | the composition of repacking, centring, tiling without margins and packing is lossless for any codec that is |
| PagePipeline.SplitConcat | crates/supvan-proto/src/printer.rs:318-319 | splitting the decompressed stream at 4096 bytes recovers the buffers |
| PagePipeline.BuffersNeeded | crates/supvan-proto/src/buffer.rs:291-306 | a page takes as many buffers as its lines need at 4074 bytes each, and no more |
| PagePipeline.PageFromTheWire | crates/supvan-proto/src/printer.rs:315-361 | a page's blocks, put together from the commands and frames or reports of a run and cut to the announced lengths, still print the page |
| Grayscale.BuildGrayscale | crates/supvan-proto/src/printer.rs:620-671 | end to end: line c the firmware decodes is row c + 8 of the image, with ink exactly where halftoning the whole image puts it, at the given trims; refused exactly for short data, an image shorter than the margins (the overflow of their subtraction), an image all margin, or by a failing codec |
| Grayscale.PackHalftone | crates/supvan-proto/src/printer.rs:650-671 | a halftoned image between the default margins becomes blocks that print it, or one of the three errors, told apart exactly |
| Grayscale.DitherImage | crates/supvan-proto/src/printer.rs:641-648 | a fresh ditherer fed row by row gives the halftone of the whole image |
| Grayscale.GreySurvives | crates/supvan-proto/src/printer.rs:641-671 | the composition of halftoning, repacking, centring, tiling between margins and packing is lossless for any codec that is |
| Jobs.SpeedFalls | crates/supvan-proto/src/speed.rs:6-24 | the speed never rises with the size of a buffer and stays between 10 and 60 |
| Jobs.SpeedSteps | crates/supvan-proto/src/speed.rs:6-24 | both sides of every step of the speed table |
| Jobs.ToGrayLine | crates/supvan-proto/src/dither.rs:230-251 | exactly the page's width for 8 and 24 bits per pixel, each pixel the byte itself or the whole part of the weighted mean, white past the end; nothing for other depths |
| Jobs.GrayKeepsExtremes | crates/supvan-proto/src/dither.rs:226-229 | white, and whatever a truncated line lacks, stays white; black stays black |
| Jobs.KsJob.constructor | crates/supvan-app/src/job.rs:113-145 | a blank tightly packed page and a fresh ditherer |
| Jobs.KsJob.AppendLine | crates/supvan-app/src/job.rs:147-156 | row y becomes the line without its padding, other rows stay; refused exactly when y is off the page |
| Jobs.KsJob.StoreContone | crates/supvan-app/src/job.rs:336-343 | row y becomes the halftone of the line given all lines fed before |
| Jobs.KsJob.WriteLine | crates/supvan-app/src/job.rs:328-358 | contone rows are stored as their mirrored halftone, 1 bpp rows as they come and kept past a short line; the two errors hold exactly for unsupported depths and rows off the page |
| Jobs.KsJob.TransferPage | crates/supvan-app/src/job.rs:158-228 | every run is safe, for blocks that decode to the page at the speed their mean size sets; success means it completed; a failure has its cause on the wire and is followed by one status poll if the printer refused and by nothing otherwise |
| Jobs.KsJob.ClearPage | crates/supvan-app/src/job.rs:264-267 | the page is blank again and the ditherer untouched |
| Jobs.KsJob.EndPage | crates/supvan-app/src/job.rs:360-375 | one safe completed run per copy, each of the page as it stood, then a blank page; on failure the page is kept, the copies before it were printed, and the wire holds them, the failed run and at most its one poll |
| Jobs.PrintRaster | crates/supvan-app/src/ipp_job.rs:189-196 | a fresh job whose rows are written in order prints, in every copy, the rows as they come or the halftone of the whole page; an unsupported depth stops it at the first row with nothing sent |
| Jobs.CopyReachesPaper | crates/supvan-app/src/job.rs:206-212 | from the wire to paper: what the device puts together from the commands and frames or reports of a printed copy decodes to exactly the page |

## Left out

- Rounding of `f32` in the ditherer: error values are exact reals. The kernels' weights are exact in binary; what the model does not show is the drift of rounded sums. The tone table is taken as it stands; its formula is not derived.
- TwoColour.RgbToPlanes: the luma is a parameter, any function of a pixel to 0..255, so nothing is said about its `f32` weights.
- Compress.RoundTrip: the LZMA library is a pair of functions assumed lossless and to write the unknown-size sentinel (`Compress.Lossless`); its format and parameters are not modelled.
- Compress.PackingIsShortest: the condition on fits is an assumption on the codec and is not proved of LZMA.
- Jobs.CopyReachesPaper: assumes that the codec does not blow a single 4096-byte buffer up to 65536 bytes (`Compress.Compact`), and that the link brings all frames or reports of a block whose transfer succeeded.
- Integer overflow: where the source's arithmetic on `u16` can overflow for inputs it accepts (margins beyond the page), the model returns an error for it, as a build with overflow checks stops there; what a build without them prints is not modelled. Products in `u32` and `usize` are unbounded integers.
- Tiling.SplitIntoBandedBuffers: for margins and bands that together stay below 65536 columns and a line of at least one byte; the source adds them in 16 bits without a check.
- PagePipeline.BuildPage: for pages below 65536 rows and heads of 1 to 255 bytes, which the source casts to 16 and 8 bits; so are `Grayscale.BuildGrayscale` and `Jobs.PrintRaster`.
- Patterns.BuildSwatchLadder: for labels below 65536 dots, for the same cast.
- Framing.FramesDeliver: for at most 255 packets; index and count are one byte each, and a block that is delivered whole has at most 132.
- Printing.Printer.PrintCompressed: time is not modelled; sleeps do nothing and operations are counted. Messages of errors are kept only as far as they tell causes apart.
- Replies: parsing and validation of status, material and command frames is folded into what an operation hears; command frames are values rather than bytes.
- SharedHandle.OwnedRunsStayWhole: looking at the flag, taking the mutex, each event and letting go are single steps; a print clears its flag in the step in which it lets go of the printer.
- Jobs.KsJob.TransferPage: without the mock device, the debug dumps, the setting of the device's `printing` flag (which `SharedHandle` models) and the text of the reported failure.
- Jobs.KsJob.ClearPage: leaves the ditherer as it is, as the source does, so a second page of a diffused job starts with the first page's error; `Jobs.PrintRaster` is therefore about the first page of a job, and independence of pages is not claimed.
- Orientation: contone lines are mirrored and 1 bpp lines are not; the model keeps both as they are and claims no equality between them.
- Patterns.TestPatternRegions: the regions only; the pixels of the test pattern and the grey ramp are decoration.
- The wait for a finished job (`KsJob::end`), material provisioning, RFID records and firmware transfer.
- Discovery of printers, the model registry, Bluetooth and HID input and output, the IPP server and image decoding: I/O without a hard core.
