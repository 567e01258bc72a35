# A verified model of the boot chain and device library

This project models the hard parts of the Ibex system in `Task_3` in Dafny and proves properties of the model: the CRC and the
coverage report, the SPI flash boot protocol, the memory routines with fast paths, the drivers and simulator code that run
beside an asynchronous partner, and some arithmetic and bookkeeping with exact bounds. `dafny verify dfyconfig.toml` checks
everything.

Code that changes state is modelled as classes and methods with loops; each is proved against a specification function, and
lemmas prove what that function means. Hardware, flash and simulated targets are state machines whose timing is arbitrary.

| file | models | main results |
|---|---|---|
| `Bytes` | little-endian words | bytes, words and numbers determine each other |
| `Crc32`, `Crc32Bits`, `Crc32Poly`, `Crc32Impl` | `crc32.c`, the table CRC of both bootloaders | all forms compute one CRC; it is the polynomial remainder of IEEE 802.3; every burst of up to 32 bits is detected, and 33 exactly characterised |
| `CoverageCodec`, `CoveragePrinter` | `printer.c` | a decoder, the exact round trip, size bound, stream format, rejection of damaged reports |
| `SpiFlash`, `SpiHost`, `SpiDriver`, `Boot` | `spiflash.v`, the SPI host, `bootloader.c`, `simulate_flash.c`, `mkflash.py` | every read returns the flash word; end-to-end boot, if and only if |
| `Memory`, `Mmio` | `memory.c`, `mmio.c` | word-wise fast paths equal their byte-wise specifications |
| `Hardened`, `RandomOrder`, `HardenedMemory` | `hardened.h`, `random_order.c`, `hardened_memory.c` | random traversals are permutations; no hardened check traps |
| `AesDriver`, `AesStart` | `dif_aes.c` | pipelined processing is correct and terminates under every timing the assumptions below allow; the exact start condition |
| `JtagDpi` | `jtagdpi.c` | the look-ahead refines the one-command-at-a-time machine |
| `TcpBuffer` | `tcp_server.c` | a FIFO in every interleaving of two threads; how far with torn indices |
| `MathDiv`, `AonTimer`, `KmacSerial`, `AesSerial` | `math.c`, `dif_aon_timer.c`, `kmac_serial.c`, `aes_serial.c` | division, split counter read, length encoding, block counter |

## Assumptions

- Launder and barrier operations are the identity; the instructions crc32.b and crc32.w are 8 and 32 shift steps.
- SPI host: the rules of Task_3/README.md:857-869 and Task_3/README.md:748-778. One FIFO word is consumed per four bytes of a
  transmit segment. A command is carried out after an arbitrary number of status reads. Lines nobody drives have an arbitrary
  fixed level, and status bits the drivers ignore are arbitrary at each read.
- The flash starts outside execute-in-place mode with no dummy cycles outstanding, as after power-up; the host may start in any
  state. Flash addresses are 24 bits wide, so the memory wraps at 2^24.
- `simulate_flash.c` uses a literal 256-entry table. `Boot.SimulateFlash` requires that entry b is eight shift steps on b.
- AES unit: automatic mode. A complete input is loaded in the very cycle of the previous result
  (Task_3/sw/device/lib/dif/dif_aes.c:334-345). An idle core may leave it waiting: without bound for the first block, and at most
  five cycles between blocks, which is the most the driver tolerates (`AesStart.TooSlow`). A result waits in the core while the
  previous one is unread; every bus access takes at least one cycle. The number of cycles of each access and each block is arbitrary.
- JTAG: TDO changes only on a falling TCK or a change of a reset line (section 4.5 of IEEE 1149.1), and a target that sees
  unchanged pins does nothing.
- Ring buffer: the byte is stored before the new write index is published, and an index moves to its wrapped value in one store.
  The C code guarantees neither (`wptr++` and `%=` are two updates). `TcpBuffer.TornFifo`, `TcpBuffer.TornIndexLeaks` and
  `TcpBuffer.TornReadLoses` say how far the buffer works without the second.
- Wakeup timer: the counter does not decrease and does not reach 2^64 during a call.

## Where code and documentation differ

- `ct_sltuw` is documented as unsigned less-than (Task_3/sw/device/lib/base/hardened.h:497-504) but holds the signed formula:
  `Hardened.SltuwLaw`.
- Task_3/README.md:790-793 lists a multiple-of-4 check among the size checks; `bootloader.c` lacks it: `Boot.UncheckedBootsImage`.
- `spi_read_rxdata` (Task_3/sw/simulate_flash.c:159-169) is meant to wait for received data, but its mask is `1u >> 24`, which is 0;
  the read is correct nevertheless because the command was waited for: `SpiDriver.Host.ReadRxDataAtOnce` and
  `SpiDriver.Host.SimulatorReadWord`.
- The comment on the block counter promises at most 8191 blocks per key write (Task_3/sw/device/sca/aes_serial.c:71-76). Under 'k',
  'p', 'b' and 'a' this holds exactly for batches of at most 8191 (`AesSerial.SmallBatchesExactly`). With 'e' and 'h', whose blocks
  are not counted, the counter can be one block behind; `AesSerial.BlocksExactly` gives the exact condition for all commands.
- `dif_aes_process_data` asks only for INPUT_READY. It works if and only if moreover nothing is unread, the core is idle and DATA_IN
  register 3 holds no leftover: `AesStart.StartExact`.
- A NUL byte in the JTAG command stream is indistinguishable from an empty look-ahead buffer: `JtagDpi.NulSwallowed`.

## Model

| member | source | states |
|---|---|---|
| `Crc32.ShiftXor` | Task_3/sw/device/lib/base/crc32.c:53-59 | One shift step is linear over GF(2): shifting an xor is xoring the shifts. |
| `Crc32.ShiftsXor` | Task_3/sw/device/lib/base/crc32.c:53-59 | So are any number of steps. |
| `Crc32.ShiftInjective` | Task_3/sw/device/lib/base/crc32.c:53-59 | One shift step never maps two register states to one. |
| `Crc32.ShiftsInjective` | Task_3/sw/device/lib/base/crc32.c:53-59 | Nor do any number of steps. |
| `Crc32.AddBytesInjective` | Task_3/sw/bootloader.c:316-330 | Feeding the same bytes to different register states keeps them different; a suffix never hides an earlier difference. |
| `Crc32.AddBytesConcat` | Task_3/sw/device/lib/base/crc32.c:83-100 | The register after a buffer fed in two pieces is that after the whole: chunking does not matter. |
| `Crc32.EightSteps` | Task_3/sw/bootloader.c:297-314 | Eight shift steps act on the low byte only and move the rest down: why 256 table entries suffice. |
| `Crc32.TableStep` | Task_3/sw/bootloader.c:324-327 | `(crc >> 8) ^ table[(crc ^ b) & 0xff]` equals eight shift steps on `crc ^ b`, for every state and byte. |
| `Crc32Bits.BytesAsBits` | Task_3/sw/device/lib/base/crc32.c:51-61 | The byte-wise register is the bit-wise register over the bits in transmission order. |
| `Crc32Bits.AddBitsPacked` | Task_3/sw/device/lib/base/crc32.c:24-33 | Feeding up to 32 bits one by one equals xoring them in at once and shifting as often. |
| `Crc32Bits.WindowDistinct` | Task_3/sw/bootloader.c:316-330 | Two different windows of at most 32 bits always lead to different registers. |
| `Crc32Bits.BurstDetected` | Task_3/sw/bootloader.c:316-330 | Any corruption confined to 32 consecutive bits, at any bit position of any message, changes the CRC. |
| `Crc32Bits.FourBytesDetected` | Task_3/sw/bootloader.c:316-330 | In particular any change inside four consecutive bytes, for every prefix and suffix. |
| `Crc32Bits.WindowOf33` | Task_3/sw/bootloader.c:316-330 | The bound is exact: windows of 33 bits collide if and only if they are equal or differ by the generator. |
| `Crc32Poly.GeneratorIsPoly` | Task_3/sw/device/lib/base/crc32.c:35-40 | The generator polynomial of section 3.2.9 of IEEE 802.3, given by its powers, is the constant 0xedb88320. |
| `Crc32Poly.RegisterHoldsRemainder` | Task_3/sw/device/lib/base/crc32.c:51-61 | Message times x^32 plus the initial pattern is a multiple of the generator plus what the register holds at the end. |
| `Crc32Poly.RemainderUnique` | Task_3/sw/device/lib/base/crc32.c:51-61 | Division by the generator leaves only one remainder, so the register is determined by the polynomial definition. |
| `Crc32Poly.CrcIsRemainder` | Task_3/sw/device/lib/base/crc32.c:42-49 | The CRC is the frame check sequence of section 3.2.9 of IEEE 802.3, and nothing else is: r is the remainder iff it is the complement of the CRC. |
| `Crc32Impl.WordStep` | Task_3/sw/device/lib/base/crc32.c:24-33 | xor with a word and 32 shift steps equals the four byte steps on its bytes in memory order. |
| `Crc32Impl.ResidueValue` | Task_3/sw/device/lib/base/crc32.c:83-102 | The register after any message and its own little-endian CRC is 0xdebb20e3. |
| `Crc32Impl.FixedResidue` | Task_3/sw/device/lib/base/crc32.c:83-102 | CRC-32 of a message followed by its own CRC does not depend on the message. |
| `Crc32Impl.Context.Add8` | Task_3/sw/device/lib/base/crc32.c:51-61 | The bit loop is one byte step of the specification. |
| `Crc32Impl.Context.Add32` | Task_3/sw/device/lib/base/crc32.c:63-70 | The portable word step feeds the four bytes in memory order. |
| `Crc32Impl.Context.Add32Instruction` | Task_3/sw/device/lib/base/crc32.c:24-33 | The crc32.w form does the same in one xor and 32 steps. |
| `Crc32Impl.Context.Add` | Task_3/sw/device/lib/base/crc32.c:83-100 | Head, word body and tail together feed exactly the buffer, for every start address and length. |
| `Crc32Impl.Context.Finish` | Task_3/sw/device/lib/base/crc32.c:102-102 | Whatever bytes have been fed since Init, the result is their specified CRC. |
| `Crc32Impl.Crc32OneShot` | Task_3/sw/device/lib/base/crc32.c:104-109 | Returns the specified CRC of the buffer at any address. |
| `Crc32Impl.ComputeFrom` | Task_3/sw/simulate_flash.c:251-258 | From a table whose entries are eight shift steps, the lookup loop returns the specified CRC. |
| `Crc32Impl.LazyTable.InitTable` | Task_3/sw/bootloader.c:297-314 | Fills the 256 entries with eight shift steps each and marks the table ready. |
| `Crc32Impl.LazyTable.Compute` | Task_3/sw/bootloader.c:316-330 | Whether or not the table was ready, returns the specified CRC and leaves a ready table. |
| `CoverageCodec.Span` | Task_3/sw/device/lib/coverage/printer.c:89-94 | The length of the run at the front: at least one, all equal, and the next counter differs or there is none. |
| `CoverageCodec.UnpackPack` | Task_3/sw/device/lib/coverage/printer.c:98-102 | Eight counters are recovered from their packed byte. |
| `CoverageCodec.PackedIsNoTag` | Task_3/sw/device/lib/coverage/printer.c:97-104 | Eight counters that are not all equal never pack to 0x00 or 0xff, so a packed byte is never read as a run tag. |
| `CoverageCodec.RunCarries` | Task_3/sw/device/lib/coverage/printer.c:63-82 | Each of the three run forms has the size its marker says and carries the length modulo 2^24. |
| `CoverageCodec.DecodeEncode` | Task_3/sw/device/lib/coverage/printer.c:84-109 | Decoding any encoding succeeds, never gives more counters than there were, and fewer exactly when an emitted run was too long. |
| `CoverageCodec.RoundTrip` | Task_3/sw/device/lib/coverage/printer.c:84-109 | The decoder recovers the input if and only if every run emitted as a run is shorter than 2^24. |
| `CoverageCodec.ShortRunsRoundTrip` | Task_3/sw/device/lib/coverage/printer.c:84-109 | Counters whose runs are all shorter than 2^24 are recovered exactly. |
| `CoverageCodec.EncodeSize` | Task_3/sw/device/lib/coverage/printer.c:84-109 | 4 * length of out <= n + 49 for n counters. |
| `CoverageCodec.EncodeSizeTight` | Task_3/sw/device/lib/coverage/printer.c:84-109 | Seven alternating counters reach the bound. |
| `CoveragePrinter.Printer.SinkWithCrc` | Task_3/sw/device/lib/coverage/printer.c:58-61 | The sink grows by the buffer and the running CRC absorbs exactly those bytes, at any alignment. |
| `CoveragePrinter.Printer.CompressRle` | Task_3/sw/device/lib/coverage/printer.c:63-82 | Prints the specified run form, taken from the middle of the two-word stack buffer. |
| `CoveragePrinter.Printer.PackEightFrom` | Task_3/sw/device/lib/coverage/printer.c:98-102 | The packing loop gives the specified packed byte. |
| `CoveragePrinter.Printer.Compress` | Task_3/sw/device/lib/coverage/printer.c:84-109 | Terminates and prints exactly the specified encoding, keeping the running CRC in step. |
| `CoveragePrinter.Printer.InitCoverage` | Task_3/sw/device/lib/coverage/printer.c:111-123 | Afterwards the report is valid; counters are kept if it was valid before, and all uncovered otherwise. |
| `CoveragePrinter.Printer.Invalidate` | Task_3/sw/device/lib/coverage/printer.c:141-158 | Afterwards the report is valid exactly if the build ID starts with the marker's bytes 42 00 00 00 and the counters are undisturbed; so invalidation is effective for every other build ID. |
| `CoveragePrinter.Printer.IsValid` | Task_3/sw/device/lib/coverage/printer.c:143-158 | True iff the status word is the build ID's first word and every counter is 0x00 or 0xff. |
| `CoveragePrinter.Printer.PrintReport` | Task_3/sw/device/lib/coverage/printer.c:125-139 | Prints magic, build ID, encoded counters and the little-endian CRC of all of these. |
| `CoveragePrinter.StreamLayout` | Task_3/sw/device/lib/coverage/printer.c:125-139 | The stream byte by byte: little-endian 0xff65766f43544f81, build ID, encoded counters, and the little-endian CRC of everything before it. |
| `CoveragePrinter.ReportRoundTrip` | Task_3/sw/device/lib/coverage/printer.c:125-139 | A host parser recovers build ID and counters iff every emitted run is shorter than 2^24. |
| `CoveragePrinter.StreamResidue` | Task_3/sw/device/lib/coverage/printer.c:125-139 | CRC-32 of the whole stream including its trailer is the constant 0x2144df1c. |
| `CoveragePrinter.AcceptedResidue` | Task_3/sw/device/lib/coverage/printer.c:125-139 | So is that of every stream the parser accepts. |
| `CoveragePrinter.CorruptReportRejected` | Task_3/sw/device/lib/coverage/printer.c:125-139 | A printed stream changed only within 32 consecutive bits, anywhere, is rejected. |
| `SpiFlash.SendStandard` | Task_3/dv/spiflash.v:374-382 | Eight standard-speed clocks deliver one byte to the flash at a byte boundary. |
| `SpiFlash.SendQuad` | Task_3/dv/spiflash.v:392-400 | Two quad clocks deliver one byte. |
| `SpiFlash.ReceiveQuad` | Task_3/dv/spiflash.v:326-335 | Two quad clocks driven by the flash carry its buffer to the host, whatever is on the host's side of the lines. |
| `SpiFlash.DummyClocks` | Task_3/dv/spiflash.v:370-372 | Dummy clocks only count down and sample nothing. |
| `SpiHost.CommandFields` | Task_3/sw/bootloader.c:123-132 | The host decodes from a command word the direction, speed, keep-selected flag and length that went in. |
| `SpiHost.SameCommand` | Task_3/sw/simulate_flash.c:126-157 | The unmasked command word of the second bootloader is the same word when the fields fit. |
| `SpiHost.AddressWordBytes` | Task_3/sw/bootloader.c:252-257 | The packed word goes out as address high, middle, low byte and mode byte 0. |
| `SpiHost.AfterOpcode` | Task_3/dv/spiflash.v:170-172 | After opcode 0xEB the flash reads quad nibbles. |
| `SpiHost.AfterAddress` | Task_3/dv/spiflash.v:174-192 | After three address bytes and the mode byte the flash has fetched the first byte and counts eight dummy clocks. |
| `SpiHost.ReceiveRun` | Task_3/dv/spiflash.v:189-192 | Any number of quad bytes received are consecutive memory bytes from the address on, wrapping at 2^24. |
| `SpiHost.FlashWordValue` | Task_3/README.md:850-854 | The word at an address: its first byte is the least significant, and addresses wrap at 2^24. |
| `SpiDriver.OpcodeSegment` | Task_3/sw/bootloader.c:241-250 | First segment of the read: opcode taken from the FIFO, flash selected and in quad input. |
| `SpiDriver.AddressSegment` | Task_3/sw/bootloader.c:252-266 | Second segment: one FIFO word gives address and mode; flash address is the argument modulo 2^24. |
| `SpiDriver.DummySegment` | Task_3/sw/bootloader.c:268-274 | Third segment: exactly the flash's eight dummy clocks. |
| `SpiDriver.DataSegment` | Task_3/sw/bootloader.c:276-282 | Fourth segment: the RX FIFO receives the word at the address, chip select is released, the flash rests. |
| `SpiDriver.WakeSegment` | Task_3/sw/bootloader.c:216-227 | The power-up opcode leaves the bus idle and the flash powered. |
| `SpiDriver.StatusFlags` | Task_3/sw/bootloader.c:134-142 | The four flags the drivers test are independent of each other and of the other status bits. |
| `SpiDriver.Commands` | Task_3/sw/bootloader.c:216-283 | The five command words decode to the five segments of power-up and read. |
| `SpiDriver.CommandWords` | Task_3/sw/bootloader.c:123-132 | The five command words bit for bit. |
| `SpiDriver.SimulatorCommands` | Task_3/sw/simulate_flash.c:171-189 | The second bootloader writes the same five words. |
| `SpiDriver.Host.WaitReady` | Task_3/sw/bootloader.c:134-142 | Returns after the pending command, whenever the hardware carries it out, with exactly its effect. |
| `SpiDriver.Host.TransmitWord` | Task_3/sw/bootloader.c:166-170 | Never overfills the transmit FIFO; appends one word before or after the pending command ran. |
| `SpiDriver.Host.ReceiveWord` | Task_3/sw/bootloader.c:192-196 | Never reads an empty FIFO; takes the oldest word. |
| `SpiDriver.Host.RunCommand` | Task_3/sw/bootloader.c:177-190 | Carries out the encoded segment after everything that was pending. |
| `SpiDriver.Host.SpiInit` | Task_3/sw/bootloader.c:145-164 | From any host state: enabled, FIFOs empty, chip select released. |
| `SpiDriver.Host.FlashPowerUp` | Task_3/sw/bootloader.c:216-227 | From a resting flash to an idle bus and a powered flash. |
| `SpiDriver.Host.FlashReadWord` | Task_3/sw/bootloader.c:229-285 | Returns the little-endian word at the address (modulo 2^24), for every 32-bit address and every hardware timing, and leaves FIFOs empty and chip select released, so any sequence of reads is correct. |
| `SpiDriver.Host.SendCommand` | Task_3/sw/simulate_flash.c:126-157 | The form without a wait before the command, from a state with nothing pending. |
| `SpiDriver.Host.ReadRxDataAtOnce` | Task_3/sw/simulate_flash.c:159-169 | The receive poll masks with `1u >> 24`, which is 0, and so does not wait; correct when the word is already there. |
| `SpiDriver.Host.SimulatorPowerUp` | Task_3/sw/simulate_flash.c:186-189 | As FlashPowerUp, with the second bootloader's drivers. |
| `SpiDriver.Host.SimulatorReadWord` | Task_3/sw/simulate_flash.c:171-184 | The second bootloader's read returns the same word although it neither waits before commands nor for the received word. |
| `Boot.HeaderReadsBack` | Task_3/sw/image/mkflash.py:14-18 | Reading flash words 0, 4, 8 of an image gives magic, size and CRC as packed, whatever payload follows. |
| `Boot.ImageLayout` | Task_3/sw/image/mkflash.py:14-18 | The image is DE C0 07 B0, the size and the CRC as little-endian words, and the application; packing fails iff the size does not fit 32 bits. |
| `Boot.CheckedJump` | Task_3/sw/simulate_flash.c:265-330 | For any flash content the checking bootloader jumps iff magic, size and the CRC of the flash payload all match. |
| `Boot.UncheckedJump` | Task_3/sw/bootloader.c:372-406 | For any flash and RAM content bootloader.c jumps iff word 0 is 0xB007C0DE, 0 < size <= 64 KiB, and the CRC of the whole payload words followed by what was in RAM behind them is word 8. |
| `Boot.RefusedExactly` | Task_3/sw/bootloader.c:375-405 | For both bootloaders the exact condition of a bad magic, a bad size and a bad CRC, and what RAM holds in each case. |
| `Boot.CheckedBootsImage` | Task_3/sw/image/mkflash.py:14-18 | A written image boots iff 0 < size <= 64 KiB and size % 4 == 0; RAM then holds the application. |
| `Boot.UncheckedBootsImage` | Task_3/sw/bootloader.c:384-412 | bootloader.c copies only size / 4 words: an image of allowed size boots iff the up to three uncopied bytes are already in RAM; whenever it jumps, RAM holds the application. |
| `Boot.WholeWordImageBoots` | Task_3/sw/image/mkflash.py:14-18 | Images of whole words boot with either bootloader from any RAM content. |
| `Boot.DamagedPayloadRefused` | Task_3/sw/bootloader.c:397-405 | A payload damaged only within 32 consecutive bits is refused by both. |
| `Boot.CopyPayload` | Task_3/sw/bootloader.c:390-395 | RAM receives the flash payload in whole words and is unchanged behind them. |
| `Boot.BootLoader` | Task_3/sw/bootloader.c:358-419 | The register-level run has the specified outcome and RAM for any flash content (Boot.UncheckedJump and Boot.RefusedExactly say which); it disables the host iff it jumps, by writing 0. |
| `Boot.SimulateFlash` | Task_3/sw/simulate_flash.c:265-330 | The same for the second bootloader, with its size check, its order of reads and its drivers (Boot.CheckedJump and Boot.RefusedExactly). |
| `Memory.Alignment` | Task_3/sw/device/lib/base/memory.c:18-54 | Head, body and tail bounds are in range and the body is whole words aligned in both buffers. |
| `Memory.SwappedWordLess` | Task_3/sw/device/lib/base/memory.c:124-138 | Byte-swapped words compare as their bytes do lexicographically when everything before is equal. |
| `Memory.LeValueLess` | Task_3/sw/device/lib/base/memory.c:149-188 | The last difference decides the order of two buffers as little-endian numbers. |
| `Memory.MemCmp` | Task_3/sw/device/lib/base/memory.c:104-147 | The result is 0, negative or positive (0, -42 or 42) iff the buffers are equal, less or greater in byte-wise lexicographic order (section 7.24.4.1 of ISO C11), for every alignment and length. |
| `Memory.MemRCmp` | Task_3/sw/device/lib/base/memory.c:149-188 | The result is 0, negative or positive iff the buffers are equal, less or greater as little-endian integers of any length. |
| `Memory.MemChr` | Task_3/sw/device/lib/base/memory.c:190-227 | The first occurrence, or nothing iff the byte does not occur. |
| `Memory.MemRChr` | Task_3/sw/device/lib/base/memory.c:229-270 | The last occurrence, or nothing iff the byte does not occur. |
| `Memory.MemCpy` | Task_3/sw/device/lib/base/memory.c:61-82 | Exactly len bytes are copied, nothing else changes, and nothing at all if a pointer is null. |
| `Memory.MemSet` | Task_3/sw/device/lib/base/memory.c:84-102 | Exactly len bytes are set. |
| `Hardened.SltzLaw` | Task_3/sw/device/lib/base/hardened.h:400-405 | The sign mask. |
| `Hardened.SltuLaw` | Task_3/sw/device/lib/base/hardened.h:415-418 | The all-ones mask iff a < b unsigned, for all words. |
| `Hardened.SltuwLaw` | Task_3/sw/device/lib/base/hardened.h:505-507 | The pointer-sized comparison gives a < b iff the top bits agree, and the opposite answer otherwise: it holds the signed formula although documented as unsigned. |
| `Hardened.SeqzLaw` | Task_3/sw/device/lib/base/hardened.h:428-438 | The mask of a == 0. |
| `Hardened.SeqLaw` | Task_3/sw/device/lib/base/hardened.h:448-451 | The mask of a == b. |
| `Hardened.CmovLaw` | Task_3/sw/device/lib/base/hardened.h:467-475 | Selects by a mask. |
| `RandomOrder.Selected` | Task_3/sw/device/lib/base/random_order.c:23-31 | The branch-free choice in wrapping arithmetic is next if next < max and next - max otherwise. |
| `RandomOrder.NextStateWraps` | Task_3/sw/device/lib/base/random_order.c:23-31 | For every state below max it is (state + 1) modulo max. |
| `RandomOrder.AdvancesPermute` | Task_3/sw/device/lib/base/random_order.c:10-36 | Whatever the random word, len advances return every index below len exactly once. |
| `RandomOrder.Order.constructor` | Task_3/sw/device/lib/base/random_order.c:10-18 | Starts at random % len, or 0 for length 0, with no index handed out. |
| `RandomOrder.Order.Advance` | Task_3/sw/device/lib/base/random_order.c:22-36 | Returns the current index, moves to the next one, counts, and its hardened check passes. |
| `HardenedMemory.MergedStep` | Task_3/sw/device/lib/base/hardened_memory.c:28-46 | Writing the element just handed out extends the finished part by one index that was not in it. |
| `HardenedMemory.Copy` | Task_3/sw/device/lib/base/hardened_memory.c:13-51 | Copies exactly len elements for every random start; no hardened check traps. Covers hardened_memcpy (words) and randomized_bytecopy (bytes). |
| `HardenedMemory.Shred` | Task_3/sw/device/lib/base/hardened_memory.c:53-76 | Overwrites the len words with the random words, each used exactly once, the j-th at the j-th index of the traversal. |
| `HardenedMemory.DrawnShuffles` | Task_3/sw/device/lib/base/hardened_memory.c:53-76 | Placing the random words along a traversal is a permutation of them. |
| `HardenedMemory.AgreementStep` | Task_3/sw/device/lib/base/hardened_memory.c:101-113 | Each round keeps the two accumulators complementary and zero iff all elements seen agree. |
| `HardenedMemory.MemEq` | Task_3/sw/device/lib/base/hardened_memory.c:78-125 | Returns 0x739 iff the first len words agree and 0x1d4 otherwise; no hardened check traps. |
| `HardenedMemory.ConsttimeMemEqByte` | Task_3/sw/device/lib/base/hardened_memory.c:127-168 | The same verdicts on bytes. |
| `HardenedMemory.HardenedXor` | Task_3/sw/device/lib/base/hardened_memory.c:170-219 | dest[k] is x[k] ^ y[k] for every k below len and unchanged behind: the mask cancels; no hardened check traps. |
| `HardenedMemory.XorInPlace` | Task_3/sw/device/lib/base/hardened_memory.c:221-251 | x[k] becomes x[k] ^ y[k] for every k below len. |
| `AesDriver.UnreadOutputStays` | Task_3/sw/device/lib/dif/dif_aes.c:343-351 | No timing of the unit and no input replaces a result that has not been read: no output is lost. |
| `AesDriver.OutputAt` | Task_3/sw/device/lib/dif/dif_aes.c:343-351 | What output i means: the cipher on block i in the state all blocks before it have led to. |
| `AesDriver.StageCycle` | Task_3/sw/device/lib/dif/dif_aes.c:324-352 | Every stage of the driver is stable under the unit's own progress, and in it the unit's observations agree with the cipher. |
| `AesDriver.WriteBlock` | Task_3/sw/device/lib/dif/dif_aes.c:334-341 | Writing block i + 1 register by register never overwrites an unloaded register, whenever block i finishes. |
| `AesDriver.WaitingEnds` | Task_3/sw/device/lib/dif/dif_aes.c:343-346 | Once OUTPUT_VALID has been seen result i can be read, and block i + 1 has been loaded or waits no longer than the reads take. |
| `AesDriver.ReadStep` | Task_3/sw/device/lib/dif/dif_aes.c:348-351 | Each read brings a waiting block one cycle closer; after the last read of result i block i + 1 has been loaded, so DATA_IN is free. |
| `AesDriver.PatienceFalls` | Task_3/sw/device/lib/dif/dif_aes.c:343-346 | The wait for OUTPUT_VALID shrinks with every poll. |
| `AesDriver.LoadPatienceFalls` | Task_3/sw/device/lib/dif/dif_aes.c:328-331 | The wait for INPUT_READY shrinks with every poll, however long the idle core leaves the first block waiting. |
| `AesDriver.BlockRead` | Task_3/sw/device/lib/dif/dif_aes.c:348-351 | The four registers read are result i of the abstract stateful cipher. |
| `AesDriver.Aes.AwaitInputReady` | Task_3/sw/device/lib/dif/dif_aes.c:328-331 | The first poll terminates for every wait of the unit, and block 0 is loaded. |
| `AesDriver.Aes.AwaitOutputValid` | Task_3/sw/device/lib/dif/dif_aes.c:343-346 | Every later poll terminates with result i ready. |
| `AesDriver.ProcessSingle` | Task_3/sw/device/lib/dif/dif_aes.c:312-317 | One block: Unavailable iff the input was not ready; otherwise Ok with the right result iff OUTPUT_VALID is set when the status is read after the block was written, and Error with nothing read and nothing stored iff it is not. |
| `AesDriver.ProcessPipelined` | Task_3/sw/device/lib/dif/dif_aes.c:319-354 | Two or more blocks: output i is the i-th output of the cipher under every timing, also when input and output buffer are the same; the first block returned is FirstResult of the run's timing. |
| `AesDriver.ProcessData` | Task_3/sw/device/lib/dif/dif_aes.c:303-355 | All paths: BadArg iff no blocks, Unavailable iff the input is not ready; two or more blocks always give Ok, one block gives Ok iff a result is there at the status read; then the specified outputs, nothing overwritten before loading, all blocks loaded in order, the unit ready again and the chaining state advanced. The start condition is exact (AesStart.StartExact). |
| `AesStart.StartSufficient` | Task_3/sw/device/lib/dif/dif_aes.c:303-355 | From a ready unit (nothing unread, idle core, no leftover in register 3) the first block returned is the right one, under every timing. |
| `AesStart.OldResultComesFirst` | Task_3/sw/device/lib/dif/dif_aes.c:343-351 | With a result left unread, or a block still in the core, the first block returned is that one, under every timing. |
| `AesStart.NeverReady` | Task_3/sw/device/lib/dif/dif_aes.c:328-331 | With both, the driver polls INPUT_READY forever. |
| `AesStart.LeftoverTaken` | Task_3/sw/device/lib/dif/dif_aes.c:324-331 | With a leftover in DATA_IN register 3 a quick run returns the result of a block whose last word is the leftover. |
| `AesStart.StartNecessary` | Task_3/sw/device/lib/dif/dif_aes.c:319-322 | If INPUT_READY is set but the unit is not ready, some first block is answered wrongly in some run, or never. |
| `AesStart.StartExact` | Task_3/sw/device/lib/dif/dif_aes.c:303-355 | When INPUT_READY is set, the driver gets past its polls and returns the right first block if and only if the unit is ready. |
| `AesStart.TooSlow` | Task_3/sw/device/lib/dif/dif_aes.c:334-351 | The longest wait of an idle core between two blocks that the driver tolerates is exact: one cycle more, and accesses of one cycle each overwrite a block that has not been loaded. |
| `JtagDpi.Server.LookaheadCmd` | Task_3/dv/jtagdpi/jtagdpi.c:29-42 | The look-ahead in place: true iff the next command is a read, any other command is buffered. |
| `JtagDpi.Server.GetCommand` | Task_3/dv/jtagdpi/jtagdpi.c:44-54 | The buffered command first, then the socket. |
| `JtagDpi.Server.UpdateJtagSignals` | Task_3/dv/jtagdpi/jtagdpi.c:76-142 | The in-place update is the specified callback. |
| `JtagDpi.Server.TickServer` | Task_3/dv/jtagdpi/jtagdpi.c:176-190 | One callback with the sampled TDO, and the pins it drives. |
| `JtagDpi.WriteCommandDrives` | Task_3/dv/jtagdpi/jtagdpi.c:96-102 | The command '0' + 4 * tck + 2 * tms + tdi drives exactly these levels and leaves both resets. |
| `JtagDpi.ResetCommandDrives` | Task_3/dv/jtagdpi/jtagdpi.c:110-114 | The command 'r' + 2 * trst + srst drives both active-low resets, leaves the other pins and sends nothing. |
| `JtagDpi.OtherCommands` | Task_3/dv/jtagdpi/jtagdpi.c:115-141 | 'R' answers with the sampled TDO, 'Q' closes, 'B' and 'b' do nothing, any other character ends the server; the pins stay. |
| `JtagDpi.WriteAnswers` | Task_3/dv/jtagdpi/jtagdpi.c:103-109 | A write answers iff it raises TCK and the next command is a read. |
| `JtagDpi.CallbackMatches` | Task_3/dv/jtagdpi/jtagdpi.c:76-142 | One callback handles exactly one outstanding command, or a rising edge of TCK and the read after it. |
| `JtagDpi.Refines` | Task_3/dv/jtagdpi/jtagdpi.c:29-142 | For every arrival pattern: the bytes sent, every change of the pins and the target state are those of the one-command-at-a-time machine on the handled commands, and handled ++ outstanding is the input. |
| `JtagDpi.Drains` | Task_3/dv/jtagdpi/jtagdpi.c:76-142 | With enough callbacks everything that has arrived is handled, unless an unknown command ends the server. |
| `JtagDpi.NulSwallowed` | Task_3/dv/jtagdpi/jtagdpi.c:24-54 | The condition of Refines is necessary: any stream with a NUL right after a rising edge has a run in which the NUL is dropped while the simple machine exits. |
| `JtagDpi.JtagExists` | Task_3/dv/jtagdpi/jtagdpi.c:103-106 | The assumption about the target can be met. |
| `TcpBuffer.TcpBuf.IsFull` | Task_3/dv/tcp_server/tcp_server.c:53-59 | True iff 255 bytes are queued. |
| `TcpBuffer.TcpBuf.IsEmpty` | Task_3/dv/tcp_server/tcp_server.c:61-63 | True iff nothing is queued. |
| `TcpBuffer.TcpBuf.PutByte` | Task_3/dv/tcp_server/tcp_server.c:65-74 | Appends the byte; waits if and only if the buffer is full, until the reader has taken a byte, and terminates. |
| `TcpBuffer.TcpBuf.GetByte` | Task_3/dv/tcp_server/tcp_server.c:76-83 | Takes the oldest byte, false iff there is none. |
| `TcpBuffer.InvRun` | Task_3/dv/tcp_server/tcp_server.c:53-83 | The invariant of the two threads holds in every interleaving. |
| `TcpBuffer.Fifo` | Task_3/dv/tcp_server/tcp_server.c:53-83 | In every interleaving: bytes put == bytes got ++ contents, and at most 255 bytes are held. |
| `TcpBuffer.FullVerdict` | Task_3/dv/tcp_server/tcp_server.c:53-59 | The full test is exact although it reads the moving read index twice. |
| `TcpBuffer.EmptyVerdict` | Task_3/dv/tcp_server/tcp_server.c:76-83 | The consumer finds nothing iff the buffer is empty, and takes the oldest byte otherwise. |
| `TcpBuffer.SocketByteStored` | Task_3/dv/tcp_server/tcp_server.c:374-377 | In the socket loop the outer full test is enough: in every interleaving, four accesses of the thread store a byte it has read from the socket; the inner test never makes it wait. |
| `TcpBuffer.TornFifo` | Task_3/dv/tcp_server/tcp_server.c:53-83 | If either index is wrapped by a second store, the buffer is still a FIFO in every run with fewer than 256 - i puts from an empty buffer at index i. |
| `TcpBuffer.TornIndexLeaks` | Task_3/dv/tcp_server/tcp_server.c:69-70 | That bound is exact for the write index: from every i a run with 256 - i puts receives a byte that was never put. |
| `TcpBuffer.TornReadLoses` | Task_3/dv/tcp_server/tcp_server.c:80-81 | A torn read index breaks the FIFO too: the full test can read 256 and then 0, and a run loses 256 bytes. |
| `Mmio.Region.ModifyWord` | Task_3/sw/device/lib/base/mmio.c:46-60 | Read, overlay and write back change only the overlaid bytes of the word. |
| `Mmio.MemCpy32` | Task_3/sw/device/lib/base/mmio.c:26-100 | Both directions: exactly [offset, offset + len) is transferred with aligned word accesses, everything else is unchanged, at most len / 4 + 2 reads, and at most 2 when writing. |
| `Mmio.WriteThenRead` | Task_3/sw/device/lib/base/mmio.c:102-113 | Writing a range and reading it back returns the source, other MMIO bytes unchanged. |
| `MathDiv.DividedStep` | Task_3/sw/device/lib/base/math.c:25-44 | One round keeps dividend * 2^i == prefix * 2^64 + a and prefix == quot * b + rem. |
| `MathDiv.NoOverflow` | Task_3/sw/device/lib/base/math.c:29-34 | Neither register loses a bit when shifted, also for divisors above 2^63. |
| `MathDiv.Udiv64Slow` | Task_3/sw/device/lib/base/math.c:14-50 | dividend == quot * b + rem with rem < b for every b > 0; all ones and the dividend for b == 0. |
| `AonTimer.WakeupGetCount` | Task_3/sw/device/lib/dif/dif_aon_timer.c:148-177 | If the counter advances by less than 2^32 during the call the result is its value at the last low-word read; without the bound, the re-read value is exact iff the high word did not change again. |
| `KmacSerial.NumberOfBigEndian` | Task_3/sw/device/sca/kmac_serial.c:328-334 | The digits written denote the number modulo 256^n. |
| `KmacSerial.RightEncodeRoundTrip` | Task_3/sw/device/sca/kmac_serial.c:326-337 | The encoding can be read back off the end of any message: right_encode of section 2.3.1 of NIST SP 800-185 is invertible. |
| `KmacSerial.RightEncodeMinimal` | Task_3/sw/device/sca/kmac_serial.c:327-327 | No shorter string of digits denotes the number. |
| `KmacSerial.ShiftIsDigit` | Task_3/sw/device/sca/kmac_serial.c:328-333 | A shift by 8k bits takes the digit of weight 256^k. |
| `KmacSerial.OutputLengthExact` | Task_3/sw/device/sca/kmac_serial.c:326-326 | The encoded output length is d * 32 iff d < 2^27, since it is computed in 32 bits. |
| `KmacSerial.Kmac.MsgWrite` | Task_3/sw/device/sca/kmac_serial.c:292-340 | BadArg iff the message is missing but its length is not 0, Error iff no operation is started, and then nothing is written or counted as processed; otherwise the FIFO receives the message and the right-encoded length, and the whole message is processed. |
| `KmacSerial.Kmac.GetDigest` | Task_3/sw/device/sca/kmac_serial.c:382-419 | BadArg iff there is no buffer for a positive length; Ok iff the unit still holds len words; for every digest and mask, if the shares are the masked digest and the mask, the words stored are the digest's, in order from the offset; on Error what there was has been read. |
| `AesSerial.StepCounted` | Task_3/sw/device/sca/aes_serial.c:262-677 | Every handler keeps the bound on the blocks since the last key write. |
| `AesSerial.BlocksBounded` | Task_3/sw/device/sca/aes_serial.c:262-677 | With batches of at most 8191: blocks since the last key write <= block_ctr <= 8191 under 'k', 'p', 'b', 'a', and <= block_ctr + 1 with 'e' and 'h' mixed in. |
| `AesSerial.LargeBatchExceeds` | Task_3/sw/device/sca/aes_serial.c:409-430 | A larger batch always passes 8191 blocks, also when the counter wraps. |
| `AesSerial.SmallBatchesExactly` | Task_3/sw/device/sca/aes_serial.c:409-494 | For sequences of 'k', 'p', 'b', 'a': at most 8191 blocks per key write at all times iff every batch is at most 8191. |
| `AesSerial.ExtraBlock` | Task_3/sw/device/sca/aes_serial.c:601-622 | A witness for the extra block: 8192 blocks with block_ctr at 8191 after 'e' and a full batch. |
| `AesSerial.StepTracks` | Task_3/sw/device/sca/aes_serial.c:262-677 | A monitor on commands and counter alone knows whether the counter is one block behind: then the blocks are counter + 1, otherwise at most the counter. |
| `AesSerial.BlocksExactly` | Task_3/sw/device/sca/aes_serial.c:262-677 | For every sequence of all the commands: at most 8191 blocks per key write at all times if and only if no accepted batch is larger than 8191 and the counter is never full while it is behind. |
| `AesSerial.KeysIntended` | Task_3/sw/device/sca/aes_serial.c:331-494 | Rewriting the key never shows: under 'k', 'p', 'b', 'a' every block is encrypted under the key set last. |
| `AesSerial.RekeyedUses` | Task_3/sw/device/sca/aes_serial.c:608-611 | A batch of 'e' or 'h' encrypts one block under each of its keys, in order, and leaves the last key in the unit. |
| `AesSerial.KeysExactly` | Task_3/sw/device/sca/aes_serial.c:262-677 | For every sequence of all the commands: the key of every block, from the commands, the two keys and the counter at the start. |
| `AesSerial.Serial.KeySet` | Task_3/sw/device/sca/aes_serial.c:262-267 | The handler of 'k' against the command step. |
| `AesSerial.Serial.SingleEncrypt` | Task_3/sw/device/sca/aes_serial.c:331-347 | The handler of 'p' against the command step. |
| `AesSerial.Serial.BatchEncrypt` | Task_3/sw/device/sca/aes_serial.c:409-430 | The handlers of 'b' and 'a', including the 32-bit wrap-around of the counter. |
| `AesSerial.Serial.FvsrKeySet` | Task_3/sw/device/sca/aes_serial.c:524-527 | The handler of 'f': only the key variable changes. |
| `AesSerial.Serial.FvsrKeyBatchEncrypt` | Task_3/sw/device/sca/aes_serial.c:601-622 | The handler of 'e': a key write before every block, halt above 256. |
| `AesSerial.Serial.FvsrDataBatchEncrypt` | Task_3/sw/device/sca/aes_serial.c:649-677 | The handler of 'h'. |

## Left out

- Sockets, threads' start and stop, client accept and close, logging and process exit: only bytes moving through the ring buffers are modelled.
- UART output of both bootloaders, the endless loops after an error, and what the application does after the jump.
- The dual-data-rate read (opcode 0xED) of the flash model and its pending mode change: neither bootloader uses it.
- SPI clock configuration, chip select numbers other than 0, and the error flags of the SPI host.
- The AES, KMAC and pseudo-random algorithms themselves: the cipher is an arbitrary stateful function, random words are parameters.
- AES manual mode, key and IV writes, reset, and alerts; the AES model covers the data path in automatic mode.
- Null-pointer arguments that only lead to an immediate error return (AES, wakeup timer); those of memory.c and KMAC are modelled.
- `hardened_memory.c`: `randomized_bytexor_in_place` is `hardened_xor_in_place` on bytes and would repeat HardenedMemory.XorInPlace.
- Status return codes of the hardened routines, timing, side channels and fault injection.
- `memcpy` and the copying and xoring random-order routines on overlapping buffers, which the original excludes as well.
- MMIO regions whose reads have side effects: Mmio models a region that behaves as memory and counts accesses.
- The plaintext and key generation of `aes_serial.c` ('g', the generation after 'e', the random keys): only which key encrypts how many blocks is modelled; a failed check halts.
- The remaining DIF drivers, GPIO, LED, screen and USB examples, build scripts and vendoring tools.
- HardenedMemory.Copy: one generic method stands for the word copy and the byte copy, which differ only in the unit.
- KmacSerial.Kmac.MsgWrite: the caller may pass no place for the count of processed bytes; here it is always returned.
- JtagDpi.Refines: requires that no NUL follows a rising edge in the arrived commands, because the theorem is false otherwise (JtagDpi.NulSwallowed).
- AesDriver.ProcessData: requires a ready unit when the input is ready, because the result is wrong otherwise; the condition is exact (AesStart.StartExact).
