# Verified models of the firmware examples

Dafny models of the algorithms and protocols inside a collection of microcontroller examples, with proofs of
what they are for. `dafny verify dfyconfig.toml` checks everything.

Code that updates memory step by step is modelled by methods over arrays and by classes with the source's
globals as fields, each proved against a function of its inputs; what the source promises is then proved
about that function. Protocols between a CPU, interrupts, DMA, a second core or another device are state
machines in which every access to something shared is one step; the theorems hold for every run, and the
class methods are proved to take those same steps. Integer widths, wrap-around and truncation are written
out where the source depends on them.

| Files | Source |
|---|---|
| `Crc32`, `CrcPolynomial` | `dma/sniff_crc`: bit-serial CRC-32, appending it, what it detects, its meaning as a polynomial remainder |
| `BitPlanes`, `FrameLoop`, `StripDriver` | `pio/ws2812/ws2812_parallel.c`: bit-plane arithmetic, error diffusion, the double-buffered frame loop |
| `LineDrawing` | `i2c/ssd1306_i2c`: Bresenham's algorithm in a paged frame buffer |
| `DviScanout` | `hstx/dvi_out_hstx_encoder`: the scanline interrupt and the picture it produces |
| `QuadratureSubstep`, `QuadratureMotion` | `pio/quadrature_encoder_substep`: position and speed in wrapping arithmetic, and what they report of a motion |
| `SpiPump` | `pio/spi`: the blocking transfer against a device behind two FIFOs |
| `LogicAnalyser` | `pio/logic_analyser`: packing samples into words and finding them again |
| `CtrMode` | `bootloaders/encrypted`: the counter-mode loop, key shares and IV |
| `UartBoot`, `UartBootCompletes` | `bootloaders/uart`: knock, write, verify, execute |
| `BleDoorbell` | `bluetooth/ble_doorbell`: notifications raised from an interrupt |
| `MulticoreDoorbell` | `multicore/multicore_doorbell`: two cores and sticky doorbells |
| `WifiCredentials` | `bluetooth/ble_wifi_provisioner`: credentials in flash |
| `I2cSlave` | `i2c/slave_mem_i2c`: a 256-byte memory on the bus |
| `Words` | shared facts about bits and C integer conversions |

## Where the code does not do what one would expect

* `ConservedExactly`, `TruncationLosesLight`, `CarryLosesLight`: `transform_strips` does not clamp (its comment asks
  whether it should), so a strip can lose light in two ways. A scaled value above 12 bits is cut off when it is
  stored: byte 255 with factor 0x1000 at brightness 0x180 asks for 6120 and stores 2024. And a value that fits can
  carry out of the top plane on top of its residual: 4095, shown twice. Brightness is conserved over a run exactly
  when every request plus the residual before it stays below 4096; with the shipped factors, always.
* `TransitionDecoded`, `TransitionTimeExactly`, `TransitionTimeLost`: the time of the last transition is computed from
  `cycles * 13` in 32 bits. From a clock of 7 MHz on it is right exactly while that product stays below 2^32, which is
  34 seconds at 125 MHz: after 330382100 loops the transition seems to be now. (On slower clocks it is right again
  whenever the number of wraps is a multiple of the clocks per microsecond.) The product is one of signed ints, so from
  2^31 on, after 17 seconds, C leaves it undefined, and this holds only where the compiler lets it wrap. The direction
  is right for 2^31 loops.
* `SpeedBetweenReached`, `ClampFailsAtSpeed`, `ClampFailsAtDistance`: the speed is clamped between two quotients of
  32-bit distances that are truncated to `int`. In every reachable state this works when the bounds come from the last
  transition to now. When they come from the sample before, it works exactly when the wraps of the quotients make up
  for any excess of the lower one over the upper one. In two simpler cases: if the upper distance fits in an int,
  exactly when both quotients wrap equally often; and if both stay below 2048 substeps per microsecond, exactly when
  the upper distance fits in an int. Two runs break it. 32 steps in one microsecond make a quotient wrap; that is three
  times the rate of one step in 13 clocks that the PIO program can follow at 125 MHz. 2^25 steps in the four seconds
  since the last update, which it can follow, make the upper distance overflow.
* `CalibrationUsable`, `StepsInOrderExactly`, `LastPhaseRoundedAway`: rounding can turn the last calibration boundary
  into 256, exactly when half the total is at least 256 times the last phase. The boundary is or-ed into the
  position, so in every other cycle the step before it then ends before it starts, unless all boundaries are 0 or 256.
* `FollowsScriptExactly`, `ResetReasons`: a chip that has answered more than one knock cannot be booted, because the
  loader reads one answer and takes the next for the acknowledgement of its first command.
* `StateIsButton`, `BothEdgesMiss`: the button's interrupt lets a rising edge win. If both edges are reported at once
  and the button is down again, the state is 0; in all other cases it is 1 exactly while the button is down.
* `SavedPairIsStored`: a saved SSID whose first byte is 0xFF is taken for unwritten flash, and both strings are
  lost; every other pair is read back.

## Model

| member | source | states |
|---|---|---|
| Crc32.SoftCrc32Block | dma/sniff_crc/sniff_crc.c:31-40 | the nested loops, for any start value, buffer and length, leave the register where consuming the buffer's bits one by one, least significant first, leaves it |
| Crc32.CrcComposes | dma/sniff_crc/sniff_crc.c:31-40 | feeding a buffer in two pieces, the second starting from the first one's result, is feeding it at once |
| Crc32.CrcBitsInjective | dma/sniff_crc/sniff_crc.c:36-38 | two registers that agree after the same bits agreed before them: the bit step is a bijection |
| Crc32.Absorb | dma/sniff_crc/sniff_crc.c:35-38 | consuming up to 32 bits equals xoring them into the register and consuming as many zeros |
| Crc32.WindowInjective | dma/sniff_crc/sniff_crc.c:31-40 | two different strings of at most 32 bits never take a register to the same value |
| Crc32.BurstDetected | dma/sniff_crc/sniff_crc.c:57-58 | any nonzero error inside 32 consecutive bits, anywhere in a buffer of any length, changes the CRC, so a passing check fails |
| Crc32.ByteChangeDetected | dma/sniff_crc/sniff_crc.c:57-58 | modifying any one byte, in any way, of a buffer whose check is zero makes the check nonzero |
| Crc32.CheckIsZeroExactlyForOwnCrc | dma/sniff_crc/sniff_crc.c:47-49 | payload followed by a little-endian word checks to zero if and only if the word is the payload's CRC |
| Crc32.AppendCrc | dma/sniff_crc/sniff_crc.c:47-49 | storing the CRC behind the payload, in place, keeps the payload, makes the check over the buffer zero, and no other word would |
| Crc32.ShippedCheckValue | dma/sniff_crc/sniff_crc.c:25-48 | for the shipped payload, the text 123456789, the CRC is the published check value 0xCBF43926 without its final complement |
| Crc32.LeadingZeroShows | dma/sniff_crc/sniff_crc.c:48 | because of the start value, a zero byte in front of any buffer changes its CRC |
| CrcPolynomial.MirrorBits | dma/sniff_crc/sniff_crc.c:28-40 | the shift-right register with 0xEDB88320 is at every point the bit-reversal of the shift-left register with 0x04C11DB7 |
| CrcPolynomial.SnifferEqualsSoftware | dma/sniff_crc/sniff_crc.c:71-75 | the sniffer's set-up (reversed bytes, most significant bit first, output reversed) computes what the software loop computes, for every start value and buffer |
| CrcPolynomial.SnifferCheck | dma/sniff_crc/sniff_crc.c:71-98 | the comparison with zero at the end of `main` succeeds exactly for the right appended word |
| CrcPolynomial.RegisterDivides | dma/sniff_crc/sniff_crc.c:28-40 | message times x^32 plus start times x^n equals quotient times generator plus the register, over GF(2), with an explicit quotient |
| CrcPolynomial.DivisionUnique | dma/sniff_crc/sniff_crc.c:28-40 | quotient and remainder of that division are unique |
| CrcPolynomial.CrcIsRemainder | dma/sniff_crc/sniff_crc.c:28-40 | a word is such a remainder, for some quotient, if and only if its bit-reversal is the CRC that the code computes |
| BitPlanes.AddError | pio/ws2812/ws2812_parallel.c:136-151 | in all 32 lanes at once the bit-sliced adder gives (s + e mod 16) mod 4096 |
| BitPlanes.StoreLane | pio/ws2812/ws2812_parallel.c:167-171 | the bit loop with its early exit puts a value modulo 4096 into one clear lane and changes no bit of another |
| BitPlanes.TransformStrips | pio/ws2812/ws2812_parallel.c:160-175 | lane i of every value holds strip i's colour scaled in 32-bit arithmetic, 0 past the strip's end and in unused lanes; values past the length are untouched |
| BitPlanes.DitherValues | pio/ws2812/ws2812_parallel.c:177-181 | every lane of every value becomes the request plus the old state's residual, modulo 4096 |
| BitPlanes.WantedIsRequested | pio/ws2812/ws2812_parallel.c:160-175 | every lane holds the scaled colour as an unbounded number, modulo 4096: what the two 32-bit multiplications lose lies above the stored bits |
| BitPlanes.BrightnessBalance | pio/ws2812/ws2812_parallel.c:136-181 | over any number of frames from zero, with requests of any size, 16 times the displayed values plus the residual plus 4096 for everything that did not fit in 12 bits equals the sum of the requests |
| BitPlanes.ConservedExactly | pio/ws2812/ws2812_parallel.c:136-181 | brightness is conserved over a run, of requests of any size, if and only if each request plus the residual before it is below 4096 |
| BitPlanes.TruncationLosesLight | pio/ws2812/ws2812_parallel.c:166-171 | byte 255, strip factor 0x1000, brightness 0x180: 6120 is asked for, 2024 stored and 4096 lost, without a carry |
| BitPlanes.CarryLosesLight | pio/ws2812/ws2812_parallel.c:136-151 | byte 255, strip factor 0x1010, brightness 0x100, shown twice: 4095 fits both times, and 4096 is lost to the carry |
| BitPlanes.ShippedRequestsFit | pio/ws2812/ws2812_parallel.c:160-203 | with strip factors up to 0x100 and brightness below 0x200 every lane holds the scaled colour itself, at most 509 |
| FrameLoop.StepKeepsInv | pio/ws2812/ws2812_parallel.c:222-324 | every atomic step of main loop, DMA, completion interrupt and alarm keeps the protocol invariant |
| FrameLoop.FramesAreSentIntact | pio/ws2812/ws2812_parallel.c:222-324 | in every interleaving: between frames exactly one of permit, transfer, reset delay; rendering never touches the buffer being sent; the fragment list is not written during a transfer; the words sent are exactly the frames handed over, complete and in order |
| FrameLoop.AlwaysProgress | pio/ws2812/ws2812_parallel.c:222-324 | no state satisfying the invariant is stuck |
| FrameLoop.PermitComesBack | pio/ws2812/ws2812_parallel.c:227-242 | while rendering, the permit is there or exactly one hardware step is possible, and each brings it nearer by one |
| FrameLoop.LightIsTotal | pio/ws2812/ws2812_parallel.c:311-324 | the light given off by frames that were each dithered on the one before is the scalar recurrence's total, lane by lane |
| FrameLoop.LightIsConserved | pio/ws2812/ws2812_parallel.c:311-324 | over any number of double-buffered frames every value of every lane gives off the unbounded scaled colours it was asked for, up to the residual and what did not fit; nothing is lost if and only if every request fits on top of its residual, and with the shipped factors nothing is |
| FrameLoop.ImageShowsLight | pio/ws2812/ws2812_parallel.c:244-272 | the eight words sent for a value show, in every lane, the displayed eight bits of its state, most significant first |
| StripDriver.Driver.constructor | pio/ws2812/ws2812_parallel.c:183-186 | zeroed buffers and one permit are the state machine's initial state |
| StripDriver.Driver.RenderFrame | pio/ws2812/ws2812_parallel.c:319-320 | rendering writes the scaled colours and dithers what was requested into the current buffer on top of the other one, which is kept |
| StripDriver.Driver.AcquireBlocking | pio/ws2812/ws2812_parallel.c:321 | the wait for the permit ends, whatever the hardware still has to do, and touches no buffer |
| StripDriver.Driver.OutputStripsDma | pio/ws2812/ws2812_parallel.c:274-280 | filling the fragment list and triggering is a run of the state machine's steps and hands over exactly the current buffer |
| StripDriver.Driver.DmaCompleteHandler | pio/ws2812/ws2812_parallel.c:234-242 | the interrupt is the state machine's step: it starts the reset delay and leaves one alarm |
| StripDriver.Driver.ResetDelayComplete | pio/ws2812/ws2812_parallel.c:227-232 | the alarm is the state machine's step: it turns the delay into the one permit |
| StripDriver.Driver.TransferOneWord | pio/ws2812/ws2812_parallel.c:244-272 | the chained channels send the next word of the fragment list, never outside the buffers, and stop at the null pointer |
| StripDriver.Driver.ShowFrame | pio/ws2812/ws2812_parallel.c:319-324 | one round of the frame loop hands over exactly one more frame, dithered on the one before, flips the buffers, and keeps every invariant |
| StripDriver.Driver.LightSoFar | pio/ws2812/ws2812_parallel.c:311-328 | in every state of the driver, what was requested so far has been given off, up to the residual and what did not fit, with the exact condition for losing nothing |
| StripDriver.Driver.LightOnWire | pio/ws2812/ws2812_parallel.c:244-280 | and that light is what a strip reads from the words on its wire, once they have been sent |
| LineDrawing.SetPixel | i2c/ssd1306_i2c/ssd1306_i2c.c:215-239 | the bit of value 2^(y % 8) in byte y / 8 * 128 + x takes the given value, and every other bit of the buffer keeps its own |
| LineDrawing.MaskIsBit | i2c/ssd1306_i2c/ssd1306_i2c.c:233-236 | masking with a bit reads the binary digit of that place |
| LineDrawing.TestsFollowLine | i2c/ssd1306_i2c/ssd1306_i2c.c:256-263 | the two tests on the doubled error step exactly when the rounded ideal line does |
| LineDrawing.NextPoint | i2c/ssd1306_i2c/ssd1306_i2c.c:250-264 | one round of the loop takes the k-th pixel and error term of the ideal line to the next ones |
| LineDrawing.DrawLine | i2c/ssd1306_i2c/ssd1306_i2c.c:241-265 | the loop ends after max(abs dx, abs dy) + 1 pixels, which are the ideal line's in order, and no other pixel changes |
| LineDrawing.InsideBox | i2c/ssd1306_i2c/ssd1306_i2c.c:241-265 | the line starts and ends at the given points and never leaves their bounding box |
| LineDrawing.ArrivedAtEnd | i2c/ssd1306_i2c/ssd1306_i2c.c:252-253 | the end point is reached at the last step and not before, so the equality test ends the loop |
| LineDrawing.PointsAreNeighbours | i2c/ssd1306_i2c/ssd1306_i2c.c:254-263 | consecutive pixels are different neighbours |
| LineDrawing.PointsAreClose | i2c/ssd1306_i2c/ssd1306_i2c.c:241-265 | after i steps along x and j along y, twice the distance of j*dx from i*dy is at most the longer extent |
| DviScanout.Scanout.constructor | hstx/dvi_out_hstx_encoder/dvi_out_hstx_encoder.c:108-118 | the globals and channels at power-up are the initial state of the runs below |
| DviScanout.Scanout.DmaIrqHandler | hstx/dvi_out_hstx_encoder/dvi_out_hstx_encoder.c:120-147 | the handler reloads the channel that finished with the next block and advances the scanline, as one step of the runs below |
| DviScanout.NextBlockExtends | hstx/dvi_out_hstx_encoder/dvi_out_hstx_encoder.c:127-147 | the block loaded for a scanline is the next piece of the intended stream and lies inside its array |
| DviScanout.SentIsIntended | hstx/dvi_out_hstx_encoder/dvi_out_hstx_encoder.c:102-147 | in every run the words sent are a prefix of the intended stream, no transfer leaves its array, each completion adds at least seven words, and the reloaded channel is not the one that is sending |
| DviScanout.ExpandPixels | hstx/dvi_out_hstx_encoder/dvi_out_hstx_encoder.c:172-178 | a row's words come out as its pixels, in order |
| DviScanout.StreamSymbols | hstx/dvi_out_hstx_encoder/dvi_out_hstx_encoder.c:70-100 | any number of scanlines expands to 800 symbols each, leaves the expander expecting a command, and every symbol is the picture's |
| DviScanout.PictureIsCorrect | hstx/dvi_out_hstx_encoder/dvi_out_hstx_encoder.c:70-147 | in every run the expander never loses its place, and each pixel clock carries the right sync or pixel: 800 clocks a line, 525 lines a frame, vertical sync on lines 10 and 11, the 480 rows in order |
| DviScanout.SyncWordDecoded | hstx/dvi_out_hstx_encoder/dvi_out_hstx_encoder.c:27-38 | read bit by bit as TMDS control characters, a sync word carries vertical and horizontal sync on lane 0 and nothing on the others |
| DviScanout.MonitorSeesPicture | hstx/dvi_out_hstx_encoder/dvi_out_hstx_encoder.c:27-147 | in every run a monitor decodes: horizontal sync low exactly from clock 16 to 111 of each line, vertical sync low exactly on lines 10 and 11, nothing on lanes 1 and 2, and the frame buffer in the last 640 clocks of the last 480 lines |
| QuadratureSubstep.StepBoundaries | pio/quadrature_encoder_substep/quadrature_encoder_substep.c:118-121 | each step ends where the next one starts, at most 256 substeps on, also where step count or position wraps |
| QuadratureSubstep.Substep.constructor | pio/quadrature_encoder_substep/quadrature_encoder_substep.c:136-166 | the state after initialisation |
| QuadratureSubstep.Substep.Update | pio/quadrature_encoder_substep/quadrature_encoder_substep.c:170-269 | the code takes the step on the whole state that the results on position, speed, stopping and motion are about |
| QuadratureSubstep.PositionInsideStep | pio/quadrature_encoder_substep/quadrature_encoder_substep.c:252-261 | after every update the position lies between the low and high boundary of the step in modular order, or is unchanged if stopped |
| QuadratureSubstep.Track | pio/quadrature_encoder_substep/quadrature_encoder_substep.c:380-403 | initialising, setting the calibration and updating with every reading ends in the state that the results over reachable states are about |
| QuadratureMotion.MotionIsReported | pio/quadrature_encoder_substep/quadrature_encoder_substep.c:170-269 | an encoder moving at constant speed, in either direction and across any wrap-around, that has made two transitions without stopping, is reported at that speed, truncated, and at its position rounded down, to within one substep for each 2^20 microseconds begun since the last transition, and exactly if the speed is an integer |
| QuadratureMotion.RunOkOfMotion | pio/quadrature_encoder_substep/quadrature_encoder_substep.c:170-246 | over such a motion no update divides by a time span that is not positive, if no sample is taken in the microsecond of a transition |
| QuadratureMotion.SpeedOfTransitions | pio/quadrature_encoder_substep/quadrature_encoder_substep.c:203-204 | two transitions of such a motion give its speed, whatever wraps in between |
| QuadratureMotion.SpeedWithin | pio/quadrature_encoder_substep/quadrature_encoder_substep.c:241-246 | slopes between which the motion lies leave its speed untouched by the clamp |
| QuadratureMotion.EstimateIsNear | pio/quadrature_encoder_substep/quadrature_encoder_substep.c:252-254 | the extrapolation with the truncated speed stays inside the step and that close to the position |
| QuadratureSubstep.InitialSettings | pio/quadrature_encoder_substep/quadrature_encoder_substep.c:136-166 | after initialisation the encoder is stopped in the middle of its step, with four phases of 64 substeps and three readings to stop |
| QuadratureSubstep.StopsAfterTransition | pio/quadrature_encoder_substep/quadrature_encoder_substep.c:184-195 | a transition starts the count afresh: the encoder is stopped after it by exactly the set number of readings without another |
| QuadratureSubstep.ClampBetweenExactly | pio/quadrature_encoder_substep/quadrature_encoder_substep.c:241-246 | for any two distances, the two-sided clamp leaves the speed between its bounds if and only if the wraps of the truncated quotients make up for any excess of the lower one |
| QuadratureSubstep.SpeedBetweenExactly | pio/quadrature_encoder_substep/quadrature_encoder_substep.c:241-246 | for ordered distances that is the case if and only if both quotients wrap equally often |
| QuadratureSubstep.SlopesOrderedExactly | pio/quadrature_encoder_substep/quadrature_encoder_substep.c:228-240 | the lower distance is at most the upper one if and only if the upper one fits in an int; they differ by one step's width, less 2^32 if it does not |
| QuadratureSubstep.SlopesFromTransition | pio/quadrature_encoder_substep/quadrature_encoder_substep.c:236-240 | when the bounds come from the last transition to now, the distances lie between -256 and 256 and neither quotient wraps |
| QuadratureSubstep.SlowEnough | pio/quadrature_encoder_substep/quadrature_encoder_substep.c:126-129 | the quotient of a distance from -2048 to below 2048 substeps per microsecond does not wrap |
| QuadratureSubstep.RunKeepsConsistent | pio/quadrature_encoder_substep/quadrature_encoder_substep.c:170-269 | every run of updates keeps: stopped means zero speed; saved bounds are those of one step; a moving encoder made its last transition at one end of the step it is in |
| QuadratureSubstep.SpeedBetweenReached | pio/quadrature_encoder_substep/quadrature_encoder_substep.c:136-269 | in every state reachable from initialisation, any update leaves the speed between the slopes since the last transition; between the slopes from the sample before if and only if the wraps make up for any excess of the lower quotient, which is if and only if both wrap equally often where the upper distance fits in an int, and if and only if it fits where both are below 2048 substeps per microsecond |
| QuadratureSubstep.ClampFailsAtSpeed | pio/quadrature_encoder_substep/quadrature_encoder_substep.c:170-246 | a run of two updates after initialisation, with 32 steps in the last microsecond, whose speed ends above its upper bound: a quotient wraps |
| QuadratureSubstep.ClampFailsAtDistance | pio/quadrature_encoder_substep/quadrature_encoder_substep.c:170-246 | a run of two updates after initialisation, with 2^25 steps in the last four seconds, whose speed ends above its upper bound: the distance overflows and no quotient wraps |
| QuadratureSubstep.TransitionDecoded | pio/quadrature_encoder_substep/quadrature_encoder_substep.c:103-114 | for every count of loops that a 32-bit counter can make, the direction is recovered if and only if there were at most 2^31; and then the time, if and only if the product with 13 wraps a multiple of clocks_per_us times |
| QuadratureSubstep.TransitionTimeExactly | pio/quadrature_encoder_substep/quadrature_encoder_substep.c:103-114 | on a clock of at least 7 MHz the time of the transition is recovered if and only if 13 times the loops is below 2^32 |
| QuadratureSubstep.TransitionTimeLost | pio/quadrature_encoder_substep/quadrature_encoder_substep.c:114 | 330382100 loops at 125 MHz: the transition is dated now instead of 34 seconds back |
| QuadratureSubstep.TransitionAtBoundary | pio/quadrature_encoder_substep/quadrature_encoder_substep.c:196-199 | after a single step in either direction the recorded transition is the boundary between the old step and the new one, also across wrap-around |
| QuadratureSubstep.SpeedPerSecond | pio/quadrature_encoder_substep/quadrature_encoder_substep.c:248-250 | the published speed is the internal one converted to substeps per second, rounded down |
| QuadratureSubstep.IdleStopsExactly | pio/quadrature_encoder_substep/quadrature_encoder_substep.c:182-195 | over any run of readings without a transition the encoder stops if and only if there have been enough of them |
| QuadratureSubstep.StoppedMeansZeroSpeed | pio/quadrature_encoder_substep/quadrature_encoder_substep.c:136-269 | in every state reachable from initialisation, with any calibration data whatever, stopped means both speeds are zero |
| QuadratureSubstep.CalibrationUsable | pio/quadrature_encoder_substep/quadrature_encoder_substep.c:337-341 | measured phases give ordered boundaries up to 256, and below 256 if and only if half the total is less than 256 times the last phase |
| QuadratureSubstep.CalibrationIsNearest | pio/quadrature_encoder_substep/quadrature_encoder_substep.c:337-341 | every boundary is within half a substep of its exact share of 256 |
| QuadratureSubstep.StepsInOrderExactly | pio/quadrature_encoder_substep/quadrature_encoder_substep.c:118-121 | with such boundaries every step ends after its start, at most 256 substeps on, if and only if the last boundary is below 256 or all are 0 or 256 |
| QuadratureSubstep.LastPhaseRoundedAway | pio/quadrature_encoder_substep/quadrature_encoder_substep.c:118-121 | phases 1000, 1000, 1000 and 1 give the boundary 256, and step 6 then runs from 427 back to 256 |
| SpiPump.StepKeepsInv | pio/spi/pio_spi.c:52-67 | every move of a byte, by CPU or device, keeps what is sent, taken, answered and stored in one order |
| SpiPump.NeverStuck | pio/spi/pio_spi.c:57-66 | until the loop is done, CPU or device can move, for any FIFO depths |
| SpiPump.TransferIsExact | pio/spi/pio_spi.c:52-67 | in every interleaving the FIFOs stay within their depths, nothing is lost, repeated or reordered, and the loop is done after exactly four moves per byte, with the answers in memory and all FIFOs empty |
| SpiPump.Loopback | pio/spi/pio_spi.c:52-67 | against a device that echoes, the answers are the bytes sent |
| SpiPump.Pio.Proceed | pio/spi/pio_spi.c:57-66 | any number of device moves between two FIFO accesses keeps the queue contents consistent |
| SpiPump.Round | pio/spi/pio_spi.c:57-66 | one round of the loop, with device moves in between, moves at least one byte nearer to its destination |
| SpiPump.Write8Read8Blocking | pio/spi/pio_spi.c:52-67 | the loop ends, has sent src once and in order, and leaves in dst the device's answers, also when dst is src; the rest of dst is kept |
| LogicAnalyser.BitsPackedPerWord | pio/logic_analyser/logic_analyser.c:31-38 | the largest multiple of the pin count that fits 32 bits |
| LogicAnalyser.ShiftInHolds | pio/logic_analyser/logic_analyser.c:57-61 | one more sample shifted in from the right end keeps all earlier ones, one group further down |
| LogicAnalyser.Capture | pio/logic_analyser/logic_analyser.c:57-80 | every word of the buffer holds, left-justified, its run of consecutive samples of all pins, whatever the shift register held before |
| LogicAnalyser.IndexInsideBuffer | pio/logic_analyser/logic_analyser.c:97-119 | every word index the printer computes lies inside the buffer that `main` allocates |
| LogicAnalyser.BufferIsTight | pio/logic_analyser/logic_analyser.c:117-119 | the buffer has the fewest words that hold all samples |
| LogicAnalyser.IndexOfSample | pio/logic_analyser/logic_analyser.c:97-103 | word and bit index of a sample are its word and its group in that word, for every pin count from 1 to 32 |
| LogicAnalyser.PrintCaptureBuf | pio/logic_analyser/logic_analyser.c:89-108 | one row per pin, one character per sample, each showing the selected bit |
| LogicAnalyser.DecodedBitIsLevel | pio/logic_analyser/logic_analyser.c:97-103 | in a captured buffer the selected bit is the level of that pin at that sample |
| LogicAnalyser.CaptureAndPrint | pio/logic_analyser/logic_analyser.c:110-158 | sizing, capturing and printing together show exactly the levels that were on the pins |
| CtrMode.MixCounter | bootloaders/encrypted/mbedtls_aes.c:21-26 | the nonce is the IV with the counter mixed in, so that its first twelve bytes are the IV's and the last four, xored with the IV's, read as the counter, most significant byte first |
| CtrMode.CryptCtrXor | bootloaders/encrypted/mbedtls_aes.c:6-43 | the byte loop, also in place, equals the blockwise definition; on a cipher error it returns that error, having processed exactly the blocks before |
| CtrMode.CtrTwice | bootloaders/encrypted/mbedtls_aes.c:36-40 | for any block function, applying it twice restores the data |
| CtrMode.CounterBlocksDistinct | bootloaders/encrypted/mbedtls_aes.c:21-26 | counter blocks are equal if and only if the counters are, below 2^32, as section 6.5 of NIST SP 800-38A requires |
| CtrMode.CounterBlockUnique | bootloaders/encrypted/mbedtls_aes.c:21-26 | for each counter below 2^32 there is exactly one block with those values |
| CtrMode.CtrBytes | bootloaders/encrypted/mbedtls_aes.c:19-40 | byte k of the result is byte k of the data xored with byte k % 16 of the encryption of block number k / 16 |
| CtrMode.KeyFromShares | bootloaders/encrypted/mbedtls_aes.c:50-57 | recombining four-way shares gives a key if and only if they are shares of that key |
| CtrMode.ShareLayout | bootloaders/encrypted/mbedtls_aes.c:50-53 | the shares of the words lie one behind the other, with a gap of 16 words in the middle |
| CtrMode.EveryShareEnters | bootloaders/encrypted/mbedtls_aes.c:53-56 | whatever is xored to any one of the four shares is xored to the word |
| CtrMode.Decrypt | bootloaders/encrypted/mbedtls_aes.c:45-73 | the buffer is decrypted in place under the shared key and the mixed IV, up to the first block the cipher fails on, whose error is ignored |
| CtrMode.DecryptsEncrypted | bootloaders/encrypted/mbedtls_aes.c:45-73 | what was encrypted under a key and an IV comes back from the shares of the key and the IV xored with the salt |
| UartBoot.Knock | bootloaders/uart/uart_boot.c:28-57 | at most 12 knocks; gives up only after a wrong answer or after all 12 |
| UartBoot.WriteImage | bootloaders/uart/uart_boot.c:79-99 | completed, the chunks were sent in order and each was acknowledged; otherwise an acknowledgement was late or wrong; no execute command either way |
| UartBoot.ReadBack | bootloaders/uart/uart_boot.c:132-142 | 32 bytes are accepted only if all equal the flash contents; otherwise one was late or different |
| UartBoot.VerifyImage | bootloaders/uart/uart_boot.c:123-154 | completed, every byte was read back equal and every chunk acknowledged; otherwise why not; no execute command either way |
| UartBoot.Partition | bootloaders/uart/uart_boot.c:69-72 | the partition is the flash from its first sector to the end of its last one, so a whole number of 32-byte chunks |
| UartBoot.Boot | bootloaders/uart/uart_boot.c:28-174 | whatever the target answers, the execute command is sent only after the complete script of knock, write, clear and matching read-back; success means the whole script; a reset happens if and only if an answer in it was wrong, or took longer than 1000 microseconds for a knock, 10 for the next byte of a block and 500 for anything else, except that the acknowledgement of a block read back is waited for without limit |
| UartBoot.ExecutesOnlyTheImage | bootloaders/uart/uart_boot.c:28-174 | against a chip that opens for the four knock bytes, has an auto-incrementing pointer that the clear command resets, and stores bytes corrupted in any way, its memory holds the partition when the script up to the execute command is through |
| UartBoot.BootChip | bootloaders/uart/uart_boot.c:28-174 | so if the loader has put the execute command on the line, and what it heard is what such a chip said, the memory of the chip then started with the partition |
| UartBootCompletes.FollowsScript | bootloaders/uart/uart_boot.c:28-174 | a chip that stores what it is sent and has heard one knock can answer the whole script as expected, and holds the image at the end |
| UartBootCompletes.FollowsScriptExactly | bootloaders/uart/uart_boot.c:28-174 | after any number of knocks heard, such a chip can follow the script if and only if there was one |
| UartBootCompletes.ResetReasons | bootloaders/uart/uart_boot.c:28-174 | such a chip is given up for a late answer, or, after more than one knock heard, for the answer to the second knock, read as the first acknowledgement; for nothing else |
| BleDoorbell.StepKeepsInv | bluetooth/ble_doorbell/server.c:44-126 | every step of interrupt, callbacks and stack keeps "the subscriber is up to date or something is under way that will tell it" |
| BleDoorbell.SubscriberIsUpToDate | bluetooth/ble_doorbell/server.c:44-126 | in every interleaving, with notifications enabled and neither callback nor request pending, the last value sent is the current state |
| BleDoorbell.StateIsButton | bluetooth/ble_doorbell/server.c:110-117 | in every interleaving, with the button up at the start, the state is 1 exactly while the button holds the pin low, except that it is 0 after an interrupt that reports both edges of a pin that stays low |
| BleDoorbell.SubscriberKnowsButton | bluetooth/ble_doorbell/server.c:70-126 | so with nothing pending the last value sent tells whether the button is down, with that one exception |
| BleDoorbell.BothEdgesMiss | bluetooth/ble_doorbell/server.c:111-113 | pressed, let go and pressed again between two interrupts: the button is down and the state is 0 |
| BleDoorbell.Settles | bluetooth/ble_doorbell/server.c:70-126 | from any such moment at most four steps of the stack bring the subscriber up to date, unless the button moves |
| BleDoorbell.Server.ButtonIrqHandler | bluetooth/ble_doorbell/server.c:110-126 | the interrupt is one step of the runs above |
| BleDoorbell.Server.AttWriteCallback | bluetooth/ble_doorbell/server.c:90-103 | with interrupts anywhere in between, writing the bytes 1 and 0 enables notifications and leaves a request for that connection; any others disable them |
| BleDoorbell.Server.DoorbellNotificationFn | bluetooth/ble_doorbell/server.c:105-107 | the callback leaves a request for the subscriber if its connection lives |
| BleDoorbell.Server.CanSendNowEvent | bluetooth/ble_doorbell/server.c:70-75 | the subscriber is sent the state as of the moment it was read, interrupts notwithstanding |
| BleDoorbell.Server.DisconnectionCompleteEvent | bluetooth/ble_doorbell/server.c:70-72 | a disconnection ends notifications, with interrupts anywhere in between |
| MulticoreDoorbell.StepKeepsInv | multicore/multicore_doorbell/multicore_doorbell.c:19-73 | every single access of either core or the interrupt keeps the invariant: no ring counted twice, none lost before the first is counted, the exit always on its way |
| MulticoreDoorbell.StepIsWork | multicore/multicore_doorbell/multicore_doorbell.c:19-73 | every step uses up a bounded amount of work, so every run ends |
| MulticoreDoorbell.NeverStuck | multicore/multicore_doorbell/multicore_doorbell.c:19-73 | until everything is done some step is possible |
| MulticoreDoorbell.CountIsBetweenOneAndN | multicore/multicore_doorbell/multicore_doorbell.c:19-73 | in every interleaving of N >= 1 rings core 0 passes its wait only after core 1 left its loop, with a count between 1 and N; nothing deadlocks and every run ends |
| MulticoreDoorbell.EveryCountIsPossible | multicore/multicore_doorbell/multicore_doorbell.c:19-73 | every count from 1 to N is reported by some complete run, so the bounds are exact |
| WifiCredentials.EncodedZeros | bluetooth/ble_wifi_provisioner/wifi_prov_lib.c:319-337 | in a saved page the first two zeros delimit exactly the SSID and the password |
| WifiCredentials.SavedPairIsStored | bluetooth/ble_wifi_provisioner/wifi_prov_lib.c:354-360 | a saved pair is what a page stands for if and only if the SSID is empty or does not start with 0xFF; otherwise it reads as the empty pair |
| WifiCredentials.Credentials.EraseCredentials | bluetooth/ble_wifi_provisioner/wifi_prov_lib.c:315-317 | the sector is all ones, or untouched if the operation failed |
| WifiCredentials.Credentials.SaveCredentials | bluetooth/ble_wifi_provisioner/wifi_prov_lib.c:319-348 | on success the page holds the encoded pair and the rest of the sector is erased, although programming only clears bits; a failed erase changes nothing, a failed program leaves the empty pair |
| WifiCredentials.Credentials.ReadCredentials | bluetooth/ble_wifi_provisioner/wifi_prov_lib.c:350-392 | the globals become the stored pair with zero padding, erased flash reads as the empty pair and is initialised, other flash is not touched, and the assertion fails only if that initialisation does |
| WifiCredentials.Credentials.SplitPage | bluetooth/ble_wifi_provisioner/wifi_prov_lib.c:362-385 | the parsing loop finds both strings and stays inside its buffers |
| WifiCredentials.Credentials.SaveThenReadTwice | bluetooth/ble_wifi_provisioner/wifi_prov_lib.c:319-392 | saving and reading returns the pair, or the empty pair in the 0xFF case, and reading again the same |
| I2cSlave.Context.Handler | i2c/slave_mem_i2c/slave_mem_i2c.c:38-62 | one event changes memory, address and flag as the transfers below require, and a request is answered with the addressed cell |
| I2cSlave.WriteTransferStores | i2c/slave_mem_i2c/slave_mem_i2c.c:38-50 | a write transfer of up to 256 bytes stores them at consecutive addresses, going round, and leaves the address behind them |
| I2cSlave.ReadAfterWrite | i2c/slave_mem_i2c/slave_mem_i2c.c:25-28 | byte k of the data goes to and comes from cell (address + k) % 256, and all other cells keep their values |
| I2cSlave.SplitReads | i2c/slave_mem_i2c/slave_mem_i2c.c:51-59 | however reads are split by Stop or Restart, they return consecutive cells from the current address, going round, and change no cell |
| I2cSlave.WriteSeekRead | i2c/slave_mem_i2c/slave_mem_i2c.c:96-122 | for any start address and up to 256 bytes: write, seek and a read split at any points returns the data, all other cells unchanged |
| I2cSlave.Context.MasterRound | i2c/slave_mem_i2c/slave_mem_i2c.c:96-122 | one round of the master, split anywhere: both comparisons in it succeed |

## Left out

- The SDK, the Bluetooth stack, the boot ROM, GPIO and clock set-up, printing and sleeps; PIO assembly programs are known by their comments and those of the C code.
- Packing of dates, register maps, LED fades, seven-segment tables, sensor conversions: one expression each, without state to keep or anything to invert.
- `dma/sniff_crc`: the DMA transfer itself; the sniffer is the bit-level register that its configuration names.
- `ws2812_parallel.c`: the pattern functions and the choice of pattern. Interrupt handlers are atomic steps and the DMA moves whole words.
- FrameLoop.FramesAreSentIntact: the `memset` of both buffers after every 1000 frames (line 329) is not one of its steps; it overwrites the buffer that has just been handed to the DMA, so the last frame of each 1000 may be sent partly or wholly dark.
- StripDriver.Driver.RenderFrame: renders in one go; that a transfer running meanwhile is not disturbed is FrameLoop's theorem, where every write of a value is a step of its own.
- `ssd1306_i2c.c`: text rendering and the display commands.
- DviScanout.PictureIsCorrect: assumes, as the comment on padding the lists does, that an interrupt is served before the other channel finishes; the expander is modelled by the command format and the comment at lines 172-173.
- QuadratureSubstep.Substep.Update: the time differences that it divides by are positive.
- QuadratureMotion.MotionIsReported: transitions are at whole microseconds, and the motion is at most 1536 substeps per microsecond; before the second transition only the bounds are claimed of the speed.
- BleDoorbell.StateIsButton: every interrupt reports an edge that the pin can have made; after both edges at once the pin is where it was.
- QuadratureSubstep.PositionInsideStep: for boundaries that start at 0, do not decrease and stay below 256; StepsInOrderExactly says what becomes of the steps when one is 256.
- QuadratureSubstep.SpeedBetweenReached: where the upper distance overflows and the speed also exceeds 2048 substeps per microsecond, the condition stays the general one on the two quotients; it has no simpler form here.
- QuadratureSubstep.CalibrationUsable: the sampling loop that measures the phases is not modelled, only the rounding of what it measured.
- `pio_spi.c`: the write-only and read-only functions are the same loop with the answers dropped or zeros sent, and would only repeat the proof.
- SpiPump.Write8Read8Blocking: source and destination are one buffer or two separate ones, not overlapping ones at different offsets.
- LogicAnalyser.CaptureAndPrint: words are lists of 32 bits; sample counts whose total number of bits does not fit 32 bits are excluded; the trigger only decides which sample is the first.
- CtrMode.CryptCtrXor: input and output are the same buffer or separate ones, not overlapping at different offsets; key set-up and key locking are outside, and the cipher is any function from blocks to blocks or errors.
- UartBoot.Boot: the partition lookup yields a first and a last sector; a byte reported readable is the next one read.
- UartBoot.ExecutesOnlyTheImage: the chip's memory is at least as long as the partition.
- UartBootCompletes.ResetReasons: knocks that reached no chip at all are not modelled; they leave nothing behind.
- BleDoorbell.SubscriberIsUpToDate: advertising, reads, writes to other attributes and the heartbeat are left out; losing a link drops its requests in one step, and a request for a dead connection has no effect.
- `multicore_doorbell.c`: modelled on values, not with a class, because both cores run truly in parallel; accesses take effect in program order, and core 1's doorbells are clear at the start.
- WifiCredentials.Credentials.SaveCredentials: strings longer than the credential buffers, which the provisioning flow would have to produce, are excluded; so is a page that neither starts with 0xFF nor holds two strings that fit.
- I2cSlave.WriteTransferStores: a single write of more than 256 bytes, and bus errors.
