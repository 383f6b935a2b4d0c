# Verified models of the weight-scale lock

A weight-scale door lock on top of mbed-os drivers: this project models the parts of it whose
correctness is not plain from reading one function, and proves what they are for.

* **Software CRC** (`Words`, `CrcBits`, `Gf2`, `CrcTables`, `MbedCrc`, `CrcDivision`, `CrcValue`,
  `CrcTableMode`, `CrcRoms`, `CrcReversed`, `CrcDefaults`). The bit-by-bit loop is polynomial division over GF(2); the
  256-entry and 16-entry table forms refine it, with the tables of the source, entry by entry.
* **Low power ticker wrapper** (`TickerTime`, `LowPowerTicker`, `LowPowerTickerWrapper`). A state machine over
  unbounded real ticks of which the code sees the low bits; the class takes its steps. `irq_handler` has a
  race on spurious interrupts; the exact condition under which a match survives it is proved.
* **Buffered UART** (`CircularBuffer`, `UartTransmit`, `UartReceive`, `Uart`, `UartSerial`). Any number of
  concurrent writers and readers, interleaved with interrupts at every point outside critical sections.
* **Flash programming** (`FlashLayout`, `FlashIap`, `FlashDriver`) over sectors of different sizes.
* **Drawing** (`GfxLine`, `GfxCircle`, `FrameBuffer`, `Display`). Lines, circles and rectangles down to the
  bits of the rotated frame buffer.
* **Audio expansion** (`AudioExpansion`, `EasyPlayback`), in place in buffers that are used in turn.
* **The lock** (`Password`, `StateMachine`, `Lock`, `LockApp`) over whole runs of the main loop.
* **The I2C command parser and printer** (`I2cCommand`).

`Common` and `Multiples` hold small functions and the arithmetic of quotients that several of them use. Where the source updates objects or
arrays, classes and methods do; each is proved equal to a function or a step, and the lemmas are about those.

## Model

| member | source | states |
|---|---|---|
| `MbedCrc.ReflectLoop` | mbed-os/drivers/MbedCRC.h:391-406 | The reflection loop delivers the low bits in the opposite order, all higher bits 0. |
| `MbedCrc.ReflectRemainderLoop` | mbed-os/drivers/MbedCRC.h:368-384 | Reflects the bits that the mask keeps, if the object asks for it, and else nothing. |
| `MbedCrc.ByteLoop` | mbed-os/drivers/MbedCRC.h:439-445 | The eight rounds on one byte are eight steps of modulo-2 division. |
| `MbedCrc.NarrowByteLoop` | mbed-os/drivers/MbedCRC.h:424-432 | The loop for widths below 8, with its own 8-bit shifting copy of the byte, is eight rounds that meet the data bits from the highest down. |
| `MbedCrc.BitwiseComputePartial` | mbed-os/drivers/MbedCRC.h:415-450 | The bit-by-bit loops, for every width, deliver the specified run over the whole message, under the mask. |
| `MbedCrc.TableComputePartial` | mbed-os/drivers/MbedCRC.h:459-496 | The four table loops deliver the specified table run over the whole message, under the mask. |
| `MbedCrc.ComputePartial` | mbed-os/drivers/MbedCRC.h:196-219 | The mode follows from whether there is a table. |
| `MbedCrc.ComputePartialStop` | mbed-os/drivers/MbedCRC.h:262-285 | The shift for narrow bitwise registers, the reflection that the nibble form leaves out, the final XOR and the mask. |
| `MbedCrc.Compute` | mbed-os/drivers/MbedCRC.h:149-173 | Start, partial and stop together deliver the CRC that the lemmas below speak of. |
| `CrcDivision.MessageCoefficient` | mbed-os/drivers/MbedCRC.h:391-406 | Coefficient e of the polynomial that is divided is a bit of the raw message: of the byte e / 8 places from its end bit e % 8, or bit 7 - e % 8 if data is reflected. |
| `CrcDivision.RunDivides` | mbed-os/drivers/MbedCRC.h:434-447 | After any message the register is congruent, modulo the generator, to message * x^width plus the start value on the first bits; any width from 8 to 32, any polynomial and start value. |
| `CrcDivision.BitwiseIsRemainder` | mbed-os/drivers/MbedCRC.h:415-450 | A value is the remainder of that division, of degree below the width, if and only if it is what the bitwise loop returns. |
| `CrcDivision.FromZero` | mbed-os/hal/crc_api.h:31-35 | From start value 0 the dividend is message * x^width alone. |
| `CrcDivision.NarrowBitwiseIsRemainder` | mbed-os/drivers/MbedCRC.h:422-433 | For width 7 the low seven bits that the loop returns are the remainder, and only they are. |
| `CrcValue.CrcFromRemainder` | mbed-os/drivers/MbedCRC.h:149-173 | For widths from 8 to 32 bit k of the CRC that the bitwise mode delivers is coefficient k of the remainder, or width - 1 - k if the remainder is reflected, flipped where the final XOR has a 1; above the width it is 0. |
| `CrcValue.NarrowCrcFromRemainder` | mbed-os/drivers/MbedCRC.h:262-285 | For width 7 the same with the remainder one place higher in eight bits. |
| `Gf2.RemainderUnique` | mbed-os/hal/crc_api.h:31-35 | Division over GF(2) by a polynomial of degree w leaves exactly one remainder. |
| `CrcTableMode.TableAgrees` | mbed-os/drivers/MbedCRC.h:459-496 | With a table of remainders, table mode and bitwise mode agree on every message from every start value, for widths 8 to 32. |
| `CrcTableMode.ModesAgree` | mbed-os/drivers/MbedCRC.h:262-285 | Hence the final CRCs agree. |
| `CrcTableMode.AgreesExactly` | mbed-os/drivers/MbedCRC.h:488-491 | With any table at all, the modes agree after every prefix of a message if and only if every entry that the right register looks up is the remainder of its index. |
| `CrcTableMode.PartialSplits` | mbed-os/drivers/MbedCRC.h:196-219 | Computing over a message in two parts changes nothing: bitwise, by byte table, and in the nibble form at width 32. |
| `CrcTableMode.NibbleSplitsExactly` | mbed-os/drivers/MbedCRC.h:481-494 | In the nibble form splitting changes nothing, over all messages and values, if and only if the width is 32: below that the mask loses bits. |
| `CrcTableMode.CrcsAgreeExactly` | mbed-os/drivers/MbedCRC.h:262-285 | With any table, for widths 8 to 32, the final CRCs of the two modes are equal if and only if the partial values are. |
| `CrcTableMode.NarrowTableAgrees` | mbed-os/drivers/MbedCRC.h:467-472 | Width 7: the table register is the bitwise register shifted left by one, after every message, whenever it is at the start. |
| `CrcTableMode.NarrowModesAgree` | mbed-os/drivers/MbedCRC.h:273-282 | Width 7: the modes deliver the same CRC on every message if and only if the start value is 0 in its low eight bits. |
| `CrcRoms.TablesHoldRemainders` | mbed-os/drivers/TableCRC.cpp:24-144 | Every entry of the 32-bit ANSI, 16-bit CCITT, 8-bit CCITT and 7-bit SD tables is the remainder of its index (for SD: by the polynomial one place up). |
| `CrcRoms.IbmEntryIsRemainder` | mbed-os/drivers/TableCRC.cpp:87-109 | An entry of the 16-bit IBM table is the remainder of its index if and only if the index is below 252. |
| `CrcRoms.RevIsNibbleTable` | mbed-os/drivers/TableCRC.cpp:146-151 | Every entry of the 16-entry table is what four rounds in the opposite bit order leave of its index. |
| `CrcRoms.PolynomialsMirror` | mbed-os/hal/crc_api.h:35-36 | The two CRC-32 polynomials are bit reversals of each other. |
| `CrcReversed.RunsMirror` | mbed-os/drivers/MbedCRC.h:481-486 | After every message the nibble form and the bitwise form of the mirrored polynomial hold registers that are bit reversals of each other. |
| `CrcReversed.SameCrc` | mbed-os/drivers/MbedCRC.h:277-282 | So they deliver the same CRC, the one reflecting at the end and the other not. |
| `CrcDefaults.RomsAreValid` | mbed-os/drivers/MbedCRC.h:525-548 | Whatever the polynomial, the table chosen has all the entries the loops index. |
| `CrcDefaults.OthersHaveNoTable` | mbed-os/drivers/MbedCRC.h:544-546 | A polynomial other than the six is computed bit by bit. |
| `CrcDefaults.TableModeIsBitwiseMode` | mbed-os/drivers/MbedCRC.h:525-548 | For 32-bit ANSI, 16-bit CCITT and 8-bit CCITT, at their own widths, partial and final values of the two modes agree on every message and start value. |
| `CrcDefaults.SdTableModeIsBitwiseMode` | mbed-os/drivers/MbedCRC.cpp:61-67 | The 7-bit SD object: partial values one shift apart, final values equal. |
| `CrcDefaults.Crc32FormsAgree` | mbed-os/drivers/MbedCRC.cpp:29-43 | The two default CRC-32 objects (section 8 of RFC 1952) deliver the same value on every message. |
| `CrcDefaults.Crc32PartialsMirror` | mbed-os/drivers/MbedCRC.cpp:29-43 | Their partial values are bit reversals of each other after every message. |
| `CrcDefaults.InvertedDividend` | mbed-os/drivers/MbedCRC.cpp:29-35 | An object that starts from all ones and reflects its data divides the message in reflected bytes, its first 32 bits inverted, with 32 zeros after it. |
| `CrcDefaults.Crc32Value` | mbed-os/drivers/MbedCRC.cpp:29-35 | The default CRC-32, through its table, delivers the remainder of that division in reflected order with every bit inverted. |
| `CrcDefaults.IbmAgreesExactly` | mbed-os/drivers/TableCRC.cpp:87-109 | For the IBM polynomial the partial values of the modes agree after every prefix of a message, from any start value, if and only if no byte makes the right register look up one of the four entries left out. |
| `CrcDefaults.IbmCrcAgrees` | mbed-os/drivers/TableCRC.cpp:87-109 | Through the table that the constructor selects, a message that avoids those entries gets the CRC of the bitwise mode. |
| `CrcDefaults.IbmCrcsAgreeExactly` | mbed-os/drivers/TableCRC.cpp:87-109 | The CRCs of a message and of all its prefixes are those of the bitwise mode if and only if it avoids those entries. |
| `CrcDefaults.IbmWitness` | mbed-os/drivers/MbedCRC.cpp:45-51 | For the one-byte message 0x3F the CRC that the default IBM object delivers, through the table selected for it, is not that of the bitwise mode. |
| `TickerTime.PassedExactly` | mbed-os/hal/mbed_ticker_api.c:215-222 | Within one wrap, and unless the match equals the reading it was set at, the comparison is true exactly when the real tick of the match has come. |
| `TickerTime.OverflowExactly` | mbed-os/hal/LowPowerTickerWrapper.cpp:273-275 | new_cycles > cycles holds exactly when the match tick was strictly passed. |
| `TickerTime.MaskedNeverOver` | mbed-os/hal/LowPowerTickerWrapper.cpp:242-246 | A masked difference of two readings never exceeds the real time between them, however many wraps lie in between. |
| `TickerTime.NoOverflow` | mbed-os/hal/LowPowerTickerWrapper.cpp:229-235 | For 4 to 64 kHz and up to 17179869 ticks the conversion to microseconds does not overflow 32 bits. |
| `TickerTime.TimeoutNeverEarly` | mbed-os/hal/LowPowerTickerWrapper.cpp:200-235 | A Timeout of the converted length on a ticker of at least 250 kHz never ends before the low power counter has advanced by the ticks, for all start times and periods. |
| `LowPowerTicker.StepKeeps` | mbed-os/hal/LowPowerTickerWrapper.cpp:31-295 | Every step of the wrapper, the hardware or the Timeout keeps the invariant: no pending match is unsecured unless its interrupt was cleared unaccepted, writes are apart, Timeouts are due in time, a pending timeout implies a pending match. |
| `LowPowerTicker.RunKeeps` | mbed-os/hal/LowPowerTickerWrapper.cpp:31-295 | In every run from started hardware, spurious interrupts, suspensions and restarts included, the invariant holds: within one wrap a pending match has its Timeout attached, or sits in a compare register that was read back in time, or has raised an interrupt, unless that interrupt was cleared without accepting it. |
| `LowPowerTicker.AnyTwoWrites` | mbed-os/hal/LowPowerTickerWrapper.cpp:241-271 | Any two writes of the compare register since the hardware was started are at least the minimum number of real ticks apart, also across suspend. |
| `LowPowerTicker.AcceptsExactly` | mbed-os/hal/LowPowerTickerWrapper.cpp:43-50 | irq_handler accepts a pending match exactly from its tick on (a match for the very tick it was set at is never accepted). |
| `LowPowerTicker.FinalTimeoutFires` | mbed-os/hal/LowPowerTickerWrapper.cpp:204-217 | A Timeout that was given all the remaining ticks finds the match passed, fires, and the interrupt will be accepted. |
| `LowPowerTicker.SecuredIsDelivered` | mbed-os/hal/LowPowerTickerWrapper.cpp:43-50 | When the tick of a match comes with no Timeout attached, the interrupt is up, is accepted, and clears the match. |
| `LowPowerTicker.DeliveredBy` | mbed-os/hal/LowPowerTickerWrapper.cpp:204-295 | In every run: with Timeouts served within some delay of being due and no interrupt waiting, a match still pending is less than the minimum count until a match plus that delay late. |
| `LowPowerTicker.SameTickIsRenewed` | mbed-os/hal/LowPowerTickerWrapper.cpp:204-217 | A match for the very tick it was set at has its Timeout renewed at every ending. |
| `LowPowerTicker.SpuriousExactly` | mbed-os/hal/LowPowerTickerWrapper.cpp:51-54 | Clearing a spurious interrupt leaves the pending match secured if and only if it is backed by a Timeout or its tick does not come before the clearing. |
| `LowPowerTicker.MatchCanBeLost` | mbed-os/hal/LowPowerTickerWrapper.cpp:51-54 | A run of two matches in which the first interrupt, served just as the second match comes, is cleared as spurious and takes the second match with it: pending past its tick with no interrupt, Timeout or compare. |
| `LowPowerTicker.SuspendEndsExactly` | mbed-os/hal/LowPowerTickerWrapper.cpp:63-69 | The polling loop of suspend ends if and only if a write is already allowed or the counter can show the ticks between two writes. |
| `LowPowerTicker.SetMeans` | mbed-os/hal/LowPowerTickerWrapper.cpp:129-139 | The match asked for is the first tick, from the call on, at which the counter shows the timestamp. |
| `LowPowerTicker.AllowedExactly` | mbed-os/hal/LowPowerTickerWrapper.cpp:239-247 | The compare register may be written again exactly when the real ticks since the last write, as far as the counter can tell, are at least the minimum. |
| `LowPowerTicker.WritesExactly` | mbed-os/hal/LowPowerTickerWrapper.cpp:237-295 | Scheduling writes the compare register, once and with the match, exactly when that is allowed and the match is not too near. |
| `LowPowerTicker.TimeoutLength` | mbed-os/hal/LowPowerTickerWrapper.cpp:248-262 | Without a write a Timeout runs for the ticks left or the minimum count, the smaller; while no write is allowed, one that is already running is left alone. |
| `LowPowerTicker.AfterWrite` | mbed-os/hal/LowPowerTickerWrapper.cpp:264-295 | Within one wrap, after a write a match already passed fires at once, one nearer than the minimum gets a Timeout of just the ticks left, and any other sits in the compare register for its own tick. |
| `LowPowerTicker.TimeoutFiresExactly` | mbed-os/hal/LowPowerTickerWrapper.cpp:204-217 | A Timeout that ends fires exactly when the tick of its match has come, and schedules anew otherwise. |
| `LowPowerTicker.ReadExactly` | mbed-os/hal/LowPowerTickerWrapper.cpp:116-127 | Reading raises the interrupt exactly for a pending match whose tick has come, and changes nothing else. |
| `LowPowerTicker.FireRaises` | mbed-os/hal/LowPowerTickerWrapper.cpp:159-167 | A fired interrupt is up and marked to be served, and nothing else changes. |
| `LowPowerTicker.FiredIsHandled` | mbed-os/hal/LowPowerTickerWrapper.cpp:31-57 | From any state that is not suspended the handler takes a fired interrupt, whatever match is pending and however near: nothing is left pending, attached or on the line, and no match counts as forfeited. |
| `LowPowerTicker.MatchIsHandled` | mbed-os/hal/LowPowerTickerWrapper.cpp:31-57 | So it does the interrupt of a match whose tick has come. |
| `LowPowerTicker.OthersAreCleared` | mbed-os/hal/LowPowerTickerWrapper.cpp:31-57 | Any other interrupt is only cleared: match and Timeout stay. |
| `LowPowerTicker.SuspendForgets` | mbed-os/hal/LowPowerTickerWrapper.cpp:59-84 | A suspended wrapper has nothing pending and may write at once when it is resumed. |
| `LowPowerTickerWrapper.Wrapper.constructor` | mbed-os/hal/LowPowerTickerWrapper.cpp:19-29 | A fresh wrapper is in the start state and satisfies the invariant. |
| `LowPowerTickerWrapper.Wrapper.ScheduleMatch` | mbed-os/hal/LowPowerTickerWrapper.cpp:237-295 | Field by field, the method takes the step of the state machine: all five outcomes. |
| `LowPowerTickerWrapper.Wrapper.SetInterrupt` | mbed-os/hal/LowPowerTickerWrapper.cpp:129-139 | Takes its step and keeps the invariant, whatever time passes inside, also while suspended. |
| `LowPowerTickerWrapper.Wrapper.TimeoutHandler` | mbed-os/hal/LowPowerTickerWrapper.cpp:204-217 | Takes its step and keeps the invariant. |
| `LowPowerTickerWrapper.Wrapper.IrqHandler` | mbed-os/hal/LowPowerTickerWrapper.cpp:31-57 | Takes its step for every interrupt, keeps the invariant, and passes on exactly those that come while suspended, those that were fired, and those of a pending match that the comparison finds passed. |
| `LowPowerTickerWrapper.Wrapper.Read` | mbed-os/hal/LowPowerTickerWrapper.cpp:116-127 | Returns the counter and fires for a passed match. |
| `LowPowerTickerWrapper.Wrapper.FireInterrupt` | mbed-os/hal/LowPowerTickerWrapper.cpp:159-167 | Takes its step and keeps the invariant; what becomes of the interrupt is `FiredIsHandled`. |
| `LowPowerTickerWrapper.Wrapper.WaitForWrite` | mbed-os/hal/LowPowerTickerWrapper.cpp:63-69 | The polling loop ends, and then a write is allowed in real time. |
| `LowPowerTickerWrapper.Wrapper.Suspend` | mbed-os/hal/LowPowerTickerWrapper.cpp:59-75 | Takes its step after some number of polls and keeps the invariant, write spacing included. |
| `LowPowerTickerWrapper.Wrapper.Resume` | mbed-os/hal/LowPowerTickerWrapper.cpp:77-84 | Takes its step and keeps the invariant. |
| `LowPowerTickerWrapper.Wrapper.Init` | mbed-os/hal/LowPowerTickerWrapper.cpp:96-104 | Restarts the hardware state without touching suspension. |
| `CircularBuffer.Ring.Push` | mbed-os/platform/CircularBuffer.h:90-103 | The ring is a queue: a push appends, and on a full ring drops the oldest element first. |
| `CircularBuffer.Ring.Pop` | mbed-os/platform/CircularBuffer.h:110-122 | A pop delivers the oldest element exactly when there is one. |
| `CircularBuffer.Ring.Empty` | mbed-os/platform/CircularBuffer.h:128-134 | True exactly for the empty queue. |
| `CircularBuffer.Ring.Full` | mbed-os/platform/CircularBuffer.h:140-146 | True exactly when the queue holds as many elements as the pool. |
| `CircularBuffer.Ring.Size` | mbed-os/platform/CircularBuffer.h:161-176 | The number of queued elements, also when the ring has wrapped. |
| `UartTransmit.StepKeeps` | mbed-os/drivers/UARTSerial.cpp:137-183 | Every step of every writer and of the interrupt keeps: accepted = sent followed by buffered, interrupt on while bytes wait outside a push region, each call's accepted bytes a prefix of its data. |
| `UartTransmit.NoPushOnFull` | mbed-os/drivers/UARTSerial.cpp:164-167 | No push is made on a full buffer, whatever interrupts come between the test and the push. |
| `UartTransmit.FinishedWrite` | mbed-os/drivers/UARTSerial.cpp:151-182 | A call that returns without giving up, in particular one all of whose steps were in blocking mode, has had exactly its data accepted, in order. |
| `UartTransmit.ModeDecides` | mbed-os/drivers/UARTSerial.cpp:151-162 | Step by step: a call ends with bytes left only in non-blocking mode and on a full buffer, and starts to wait only in blocking mode and on a full buffer. |
| `UartTransmit.PushesAll` | mbed-os/drivers/UARTSerial.cpp:164-167 | A call pushes as long as it has bytes and the buffer is not full, and only then enters its critical section. |
| `UartTransmit.StepProgresses` | mbed-os/drivers/UARTSerial.cpp:137-183 | Every step of a call lowers a bound on the steps it has left, except for letting go of the mutex on a full buffer. |
| `UartTransmit.TxIrqSends` | mbed-os/drivers/UARTSerial.cpp:307-316 | The interrupt sends bytes in order until the buffer is empty or the peripheral takes no more. |
| `UartTransmit.KickSends` | mbed-os/drivers/UARTSerial.cpp:169-177 | The critical section sends in the same way unless the interrupt is on, and leaves it on exactly for bytes still waiting. |
| `UartTransmit.WaitingWriterIsReleased` | mbed-os/drivers/UARTSerial.cpp:153-162 | Outside a push region a full transmit buffer has its interrupt attached, and that interrupt makes room. |
| `UartReceive.StepKeeps` | mbed-os/drivers/UARTSerial.cpp:185-225 | The mirror statement for readers: arrived = delivered followed by buffered, interrupt on exactly while there is room outside a pop region. |
| `UartReceive.NoOverrun` | mbed-os/drivers/UARTSerial.cpp:284-304 | rx_irq takes bytes in the order offered, and stops early only at a full buffer. |
| `UartReceive.FinishedRead` | mbed-os/drivers/UARTSerial.cpp:207-224 | A returning read has between one byte and its length, and they are the last bytes delivered. |
| `UartReceive.ReturnsBytes` | mbed-os/drivers/UARTSerial.cpp:197-224 | A blocking call that has returned has between one byte and its length; a call that gave up has none. |
| `UartReceive.ModeDecides` | mbed-os/drivers/UARTSerial.cpp:197-205 | Step by step: a call ends with no byte only in non-blocking mode and on an empty buffer, and waits only in blocking mode and on an empty buffer. |
| `UartReceive.TakesAll` | mbed-os/drivers/UARTSerial.cpp:207-210 | A call takes the oldest byte as long as it wants one and there is one. |
| `UartReceive.KickTakes` | mbed-os/drivers/UARTSerial.cpp:212-220 | The critical section takes what the peripheral offers and the buffer holds unless the interrupt is on, and leaves it on exactly while there is room. |
| `UartReceive.WaitingReaderIsReleased` | mbed-os/drivers/UARTSerial.cpp:197-205 | Outside a pop region an empty receive buffer has its interrupt attached, and that interrupt fills it. |
| `Uart.StepKeeps` | mbed-os/drivers/UARTSerial.cpp:137-327 | Both halves under one mutex, with the deep-sleep lock count equal to the number of attached handlers, after every step. |
| `Uart.RunKeeps` | mbed-os/drivers/UARTSerial.cpp:137-327 | The invariant holds in every state of every run, over every interleaving of calls and interrupts. |
| `Uart.SentInOrder` | mbed-os/drivers/UARTSerial.cpp:307-316 | In such a state what the peripheral has been handed of a call is a prefix of that call's data. |
| `Uart.WriterIsBounded` | mbed-os/drivers/UARTSerial.cpp:137-183 | In every run the steps of a write, from any point on, number at most its bound there plus two for each time it finds the buffer full; no other call and no interrupt sets it back. |
| `Uart.ReaderIsBounded` | mbed-os/drivers/UARTSerial.cpp:185-225 | The same for a read and the empty buffer. |
| `Uart.ImpatientWriterEnds` | mbed-os/drivers/UARTSerial.cpp:153-156 | In every run a write that is never in blocking mode never waits and takes at most six steps for each byte and four more. |
| `Uart.ImpatientReaderEnds` | mbed-os/drivers/UARTSerial.cpp:197-201 | A read that is never in blocking mode never waits and takes at most one step for each byte and four more. |
| `Uart.BlockingWriterCompletes` | mbed-os/drivers/UARTSerial.cpp:148-162 | In every run a write in blocking mode that has returned has had exactly its data accepted, in order. |
| `Uart.BlockingReaderCompletes` | mbed-os/drivers/UARTSerial.cpp:197-224 | In every run a read in blocking mode that has returned has between one byte and its length. |
| `UartSerial.Serial.constructor` | mbed-os/drivers/UARTSerial.cpp:31-40 | The receive handler is attached at once, taking one sleep lock. |
| `UartSerial.Serial.AttachTx` | mbed-os/drivers/SerialBase.cpp:76-98 | Attaching locks deep sleep only the first time, detaching unlocks it only if attached. |
| `UartSerial.Serial.AttachRx` | mbed-os/drivers/SerialBase.cpp:76-98 | The same for the receive handler. |
| `UartSerial.Serial.Poll` | mbed-os/drivers/UARTSerial.cpp:239-260 | Readable for a non-empty receive buffer, writable for a transmit buffer with room, unless hung up. |
| `UartSerial.Serial.TxIrq` | mbed-os/drivers/UARTSerial.cpp:307-327 | The loop and the detaching are the transmit interrupt step; pollers are woken exactly when poll starts to report writable. |
| `UartSerial.Serial.RxIrq` | mbed-os/drivers/UARTSerial.cpp:284-304 | The loop and the detaching are the receive interrupt step; pollers are woken exactly when poll starts to report readable. |
| `UartSerial.Serial.KickTransmit` | mbed-os/drivers/UARTSerial.cpp:169-177 | The critical section of write is its step. |
| `UartSerial.Serial.KickReceive` | mbed-os/drivers/UARTSerial.cpp:212-220 | The critical section of read is its step. |
| `FlashLayout.SectorSizeIs` | mbed-os/hal/flash_api.h:96 | The size reported for an address is that of the one sector that holds it. |
| `FlashIap.AcceptsProgramExactly` | mbed-os/drivers/FlashIAP.cpp:100-104 | The check accepts exactly page-aligned ranges from a non-null source that end in the flash, or whose 32-bit sum wraps to a value that does. |
| `FlashIap.ProgramWrites` | mbed-os/drivers/FlashIAP.cpp:108-136 | After the calls of a finished program every byte is the source byte, 0xFF up to the end of the last page, or what it was before. |
| `FlashIap.SectorLeft` | mbed-os/drivers/FlashIAP.cpp:109-111 | What is left of a sector, as computed with %, is at least a page and stays in one sector. |
| `FlashIap.RoundExtends` | mbed-os/drivers/FlashIAP.cpp:116-135 | Each round appends the next bytes, with no gap and no page written twice. |
| `FlashIap.AcceptsEraseExactly` | mbed-os/drivers/FlashIAP.cpp:159-168 | The check accepts exactly the ranges whose 32-bit sum is a sector's start, the end of the flash, or 0, where it takes the invalid sector size for a divisor. |
| `FlashIap.EraseVisits` | mbed-os/drivers/FlashIAP.cpp:172-181 | From a sector start to a sector end, erase passes exactly the starts of the sectors in between, in order, and stops at the first failure; the size never underflows. |
| `FlashIap.EraseClearsExactly` | mbed-os/drivers/FlashIAP.cpp:153-184 | A finished erase of an accepted range clears exactly that range if and only if the range begins at a sector start, which is not checked. |
| `FlashIap.EraseStaysInside` | mbed-os/drivers/FlashIAP.cpp:153-184 | Whatever the HAL answers, an erase of an accepted range touches no byte outside it if and only if the range begins at a sector start. |
| `FlashIap.UnderflowsFromMiddle` | mbed-os/drivers/FlashIAP.cpp:178-180 | From the middle of a sector to its end an erase is accepted, and after its first call it is not done: its 32-bit size has underflowed. |
| `FlashDriver.FlashIAP.FillPageBuffer` | mbed-os/drivers/FlashIAP.cpp:117-121 | The chunk, then 0xFF to the end of the page. |
| `FlashDriver.FlashIAP.ChooseChunk` | mbed-os/drivers/FlashIAP.cpp:109-128 | In the flash the page buffer is used exactly for an unaligned source or less than a page, and for a page at most; otherwise the chunk is as many whole pages as the range and the sector hold. Every call stays in one sector. |
| `FlashDriver.FlashIAP.ProgramRound` | mbed-os/drivers/FlashIAP.cpp:109-135 | One round makes one proper HAL call for the next bytes. |
| `FlashDriver.FlashIAP.Program` | mbed-os/drivers/FlashIAP.cpp:91-140 | Every HAL call of an accepted range is page aligned, whole pages, in one sector, from the page buffer or an aligned pointer, if and (for a return of 0) only if the range lies in the flash; then 0 means that the calls program the range and -1 that they store a proper prefix. An accepted range gets 0 exactly when the HAL fails no call. |
| `FlashDriver.FlashIAP.Erase` | mbed-os/drivers/FlashIAP.cpp:153-184 | The loop is the specified run of the HAL answers, refusals included. |
| `GfxLine.ErrStep` | Adafruit_GFX.cpp:188-193 | The error term finds the next closed-form offset: one step of the loop. |
| `GfxLine.LineSpans` | Adafruit_GFX.cpp:153-195 | One pixel for each major coordinate, max(|dx|,|dy|)+1 of them, from one endpoint to the other. |
| `GfxLine.LineIsNearest` | Adafruit_GFX.cpp:173-194 | In all octants each pixel is at most half a pixel off the ideal line along the minor axis. |
| `GfxLine.TiesStayBack` | Adafruit_GFX.cpp:181-193 | Halfway between two pixels the one drawn is that nearer, along the minor axis, to the end with the smaller major coordinate. |
| `GfxLine.LineIsSymmetric` | Adafruit_GFX.cpp:163-167 | The line does not depend on the order of its endpoints. |
| `GfxCircle.FIsMidpoint` | Adafruit_GFX.cpp:118-134 | f is (x+1)^2 + y^2 - y - r^2 at every step. |
| `GfxCircle.WalkOnArc` | Adafruit_GFX.cpp:124-134 | At every step |x^2 + y^2 - r^2| <= y. |
| `GfxCircle.NoOverflow` | Adafruit_GFX.cpp:118-134 | For r up to 16383 f, ddF_x and ddF_y stay in an int16_t. |
| `GfxCircle.DiscSound` | Adafruit_GFX.cpp:109-148 | No pixel of fillCircle is further out than r^2 + r. |
| `GfxCircle.DiscComplete` | Adafruit_GFX.cpp:109-148 | Every lattice point with dx^2 + dy^2 <= r^2 is painted. |
| `GfxCircle.OutlineSound` | Adafruit_GFX.cpp:27-61 | Every pixel of drawCircle has a squared radius at most r off r^2. |
| `GfxCircle.OutlineSymmetric` | Adafruit_GFX.cpp:52-59 | The outline is symmetric under all eight reflections. |
| `GfxCircle.OutlineReaches` | Adafruit_GFX.cpp:27-61 | The outline has a pixel in every column that the circle spans, and so, by symmetry, in every row. |
| `FrameBuffer.QuarterTurn` | Adafruit_SSD1306.cpp:118-133 | Each rotation is a quarter turn of the one before, starting from the unrotated display. |
| `FrameBuffer.QuarterTurnKeepsBit` | Adafruit_SSD1306.cpp:118-139 | The pixel that a quarter turn moves stays the same bit of the buffer. |
| `FrameBuffer.Layout` | Adafruit_SSD1306.cpp:136-139 | Unrotated, the first pixel is the lowest bit of the first byte, the pixel below the next higher bit of the same byte or, after the eighth, the lowest bit a row of bytes on, and the pixel to the right the same bit of the next byte. |
| `FrameBuffer.BitsDouble` | Adafruit_SSD1306.cpp:136-139 | The mask of each bit is twice the one before, from 1 on. |
| `FrameBuffer.OneToOne` | Adafruit_SSD1306.cpp:113-140 | For each rotation two pixels never share a bit. |
| `FrameBuffer.Onto` | Adafruit_SSD1306.cpp:113-140 | When the height is a multiple of 8 every bit of the buffer is some pixel's. |
| `FrameBuffer.InBoundsExactly` | Adafruit_SSD1306.cpp:135-139 | All pixels fall in the buffer if and only if the raw height is a multiple of 8. |
| `FrameBuffer.PutShows` | Adafruit_SSD1306.cpp:136-139 | A pixel drawn changes that pixel alone. |
| `FrameBuffer.PaintShows` | Adafruit_SSD1306.cpp:113-140 | A list of pixels drawn changes those listed, and no others. |
| `FrameBuffer.SamePicture` | Adafruit_SSD1306.cpp:113-140 | Buffers that show the same picture are the same bytes. |
| `Display.LoopDrawsLine` | Adafruit_GFX.cpp:153-195 | In int16_t arithmetic the loop draws the pixels of the closed form, for every line whose extent fits. |
| `Display.LineExactly` | Adafruit_GFX.cpp:169-194 | On every line on which it ends the loop draws the closed form if and only if the extent is below 32768; otherwise it is off at the second or third pixel. |
| `Display.CounterReaches` | Adafruit_GFX.cpp:181-208 | An int16_t counter reaches a limit at or above its start if and only if the limit is at most 32767: drawLine ends unless the last major coordinate is 32767, fillRect unless x + w exceeds 32767. |
| `Display.StrokeNext` | Adafruit_GFX.cpp:188-193 | One round of the line loop in int16_t arithmetic, wrap included. |
| `Display.RectIsExact` | Adafruit_GFX.cpp:203-208 | fillRect covers exactly its rectangle if and only if h >= 1 or w <= 0; for h < 1 it draws rows above. |
| `Display.RectShows` | Adafruit_GFX.cpp:203-208 | On the screen fillRect with h >= 1 changes exactly the pixels of the rectangle, clipped. |
| `Display.DiscShows` | Adafruit_GFX.cpp:109-148 | On the screen fillCircle shows every point within r and changes nothing beyond r^2 + r. |
| `Display.CircleRound` | Adafruit_GFX.cpp:126-134 | One round of the midpoint loop in int16_t arithmetic is one step of the walk. |
| `Display.Panel.constructor` | Adafruit_SSD1306.h:53-58 | A fresh panel is dark and unrotated. |
| `Display.Panel.SetRotation` | Adafruit_GFX.cpp:437-454 | Width and height follow the rotation, taken modulo 4. |
| `Display.Panel.ClearDisplay` | Adafruit_SSD1306.cpp:157-160 | Every pixel is dark. |
| `Display.Panel.DrawPixel` | Adafruit_SSD1306.cpp:113-140 | Sets or clears the bit of the rotated pixel, and nothing for a pixel off the screen. |
| `Display.Panel.DrawLine` | Adafruit_GFX.cpp:153-195 | Draws exactly the pixels of the int16_t loop, for every line on which the loop ends. |
| `Display.Panel.DrawFastVLine` | Adafruit_GFX.cpp:197-201 | Draws the column between the two ends. |
| `Display.Panel.FillRect` | Adafruit_GFX.cpp:203-208 | Draws the strips of the rectangle. |
| `Display.Panel.FillCircle` | Adafruit_GFX.cpp:109-148 | Draws the strips of the disc. |
| `Display.Panel.DrawCircle` | Adafruit_GFX.cpp:27-61 | Draws the outline of the walk. |
| `AudioExpansion.ExpandedAt` | mbed-gr-libs/EasyPlayback/EasyPlayback.cpp:196-204 | Byte t of group j is byte t of block j, or 0 for the padding. |
| `AudioExpansion.StripExpanded` | mbed-gr-libs/EasyPlayback/EasyPlayback.cpp:196-204 | Leaving out the padding gives the samples back. |
| `AudioExpansion.FormatFits` | mbed-gr-libs/EasyPlayback/EasyPlayback.cpp:152-161 | For a buffer of whole 4-byte slots, block and padding, if there is any, fill a slot and the data read fills the blocks; `BlockExactly` says for which samples there is. |
| `AudioExpansion.InsideExactly` | mbed-gr-libs/EasyPlayback/EasyPlayback.cpp:196-204 | The backward loop stays in the buffer, and ends at its first byte, if and only if the buffer is a whole number of groups. |
| `EasyPlayback.ReadFills` | mbed-gr-libs/EasyPlayback/EasyPlayback.cpp:152-161 | 20- and 24-bit samples, and 16-bit ones on SPDIF, are read for whole slots, (bits + 7) / 8 bytes for each; of any others a whole buffer is read. |
| `EasyPlayback.BlockExactly` | mbed-gr-libs/EasyPlayback/EasyPlayback.cpp:152-210 | For those samples the block handed over is the whole buffer, in which byte 4j + t is data byte wj + t for t < w = (bits + 7) / 8, or 0 past the data, and 0 for other t; for any others it is the data. |
| `EasyPlayback.BlocksExactly` | mbed-gr-libs/EasyPlayback/EasyPlayback.cpp:164-220 | The blocks of a play are those of its reads, in order, up to the first empty one. |
| `EasyPlayback.Player.ExpandGroup` | mbed-gr-libs/EasyPlayback/EasyPlayback.cpp:197-203 | One group written in place, nothing else changed. |
| `EasyPlayback.Player.Expand` | mbed-gr-libs/EasyPlayback/EasyPlayback.cpp:186-204 | In place, the buffer becomes the expansion of what was read, extended with zeros; no byte is overwritten before it is read, and both indices end at -1. |
| `EasyPlayback.Player.FillBuffer` | mbed-gr-libs/EasyPlayback/EasyPlayback.cpp:183-210 | What is handed over is the block for the data read; the other buffers are untouched. |
| `EasyPlayback.StillInFlight` | mbed-gr-libs/EasyPlayback/EasyPlayback.cpp:183-215 | Filling the next buffer leaves the other blocks in flight as they were handed over. |
| `EasyPlayback.Player.PlayBuffer` | mbed-gr-libs/EasyPlayback/EasyPlayback.cpp:183-215 | One buffer is filled and handed over, the index goes on, and the last blocks handed over still lie in their buffers. |
| `EasyPlayback.Player.PlayUnbuffered` | mbed-gr-libs/EasyPlayback/EasyPlayback.cpp:171-181 | A device without buffers is passed the lengths of the same blocks. |
| `EasyPlayback.Player.Play` | mbed-gr-libs/EasyPlayback/EasyPlayback.cpp:164-220 | Over a whole play the driver gets, for each read before the first empty one or a skip, exactly the block that `BlockExactly` describes for the width of the samples. |
| `Password.Password.constructor` | Password.cpp:36-39 | The target is the given string, the guess empty. |
| `Password.Password.Set` | Password.cpp:42-44 | The target becomes the string, the guess stays. |
| `Password.Password.Append` | Password.cpp:57-65 | Adds any character unless there are 19; the guess stays terminated. |
| `Password.Password.Reset` | Password.cpp:68-71 | The guess becomes empty, the target stays. |
| `Password.Password.Evaluate` | Password.cpp:83-100 | True exactly when guess and target are the same string of at most 18 characters. |
| `StateMachine.FollowsEdges` | StateMachine.cpp:24-75 | A settled machine reaches what is asked for exactly along an edge of the diagram, and otherwise stays. |
| `StateMachine.RefusedReenters` | StateMachine.cpp:28-74 | A request that no edge leads to runs the end, init and do callbacks of the present state at every call. |
| `StateMachine.CallsFollow` | StateMachine.cpp:64-74 | A state is entered exactly when one is left; only the destination is entered, only the origin left, and the current state is run last. |
| `StateMachine.Controller.StateTrans` | StateMachine.cpp:24-75 | The nested switches follow the diagram, make the callbacks in order and send the servo commands of the state entered. |
| `Lock.RunSettles` | main.cpp:67-138 | In every run each round ends with the machine in the state asked for and the last servo angle matching it. |
| `Lock.UnlockAngle` | main.cpp:181-196 | A round sends the unlock angle exactly when the right password opens the lock, or in the first round if the switch was read open. |
| `Lock.LockAngle` | main.cpp:257-264 | A round sends the locking angle exactly when the door closes on an unlocked machine, or in the first round. |
| `Lock.UnlockedExactly` | main.cpp:49-138 | In every run the lock is unlocked if and only if it was opened (by the right password, a real reading and a weight below the goal, or at the start) and in no round since did the switch read closed after reading open in the round before. |
| `Lock.DoorOldIs` | main.cpp:101-111 | After every run the stored door reading is the one of its last round, and closed before the first. |
| `Lock.OpenIgnoresKeys` | main.cpp:114-116 | While the lock is open and the door does not close, a round has no effect but storing the door reading, whatever key is pushed. |
| `Lock.PasswordStaysTypeable` | main.cpp:140-171 | In every run the password in force has at most 18 characters, no leading 0, no * and no #, and the guess at most 19. |
| `Lock.TypingOpens` | main.cpp:140-196 | After #, any rounds in which the password in force is pushed key by key, with idle rounds and readings in between, and then * with a reading below the goal unlock, the door staying closed. |
| `Lock.PushedAppends` | main.cpp:167-169 | In any rounds the keys pushed, other than * and #, are added to the guess in order, up to 19 characters, and nothing else changes. |
| `Lock.TypingElse` | main.cpp:149-163 | Typing anything that does not begin with 0 only clears the guess if it is not the password, there is no reading, or the reading is not below the goal. |
| `Lock.TypingSetsPassword` | main.cpp:154-156 | Typing 0 and then a text that does not begin with 0 makes the text the password in force and changes nothing else. |
| `Lock.TypingSetsGoal` | main.cpp:151-153 | Typing 00 and then the decimal digits of a number, ended by * or another character, makes the number the goal and changes nothing else. |
| `Lock.AtoiReads` | main.cpp:152 | Spaces, a sign and decimal digits read back as the number printed. |
| `Lock.FactoryPassword` | main.cpp:34-36 | A lock that starts with its door closed opens to 1234 and a reading below 100. |
| `Lock.ClosedUnseen` | main.cpp:55-112 | A door that is open when first read and closed by the first round leaves the lock unlocked for as long as it stays closed. |
| `LockApp.App.constructor` | main.cpp:49-60 | The state before the loop. |
| `LockApp.App.WatchDoor` | main.cpp:99-112 | The door step, over the objects. |
| `LockApp.App.CheckPassword` | main.cpp:181-196 | Asks for the unlocked state exactly on the right password, a real reading and a weight below the goal. |
| `LockApp.App.EnterKey` | main.cpp:149-163 | The three meanings of *, over the arrays of the password object. |
| `LockApp.App.KeypadEvent` | main.cpp:140-179 | The key step. |
| `LockApp.App.LoopBody` | main.cpp:67-136 | One round of the loop is the specified round. |
| `LockApp.App.ComMain` | main.cpp:49-138 | The loop over a run of readings ends in the state that the run lemmas speak of. |
| `I2cCommand.StrToHex` | utilities/i2c_setting.cpp:58-82 | Accepts exactly the hex digits and folds them in 8 bits. |
| `I2cCommand.DigitRow` | utilities/i2c_setting.cpp:58-103 | The sixteen digits, in either case, are the only ones, and their values are their places in the row; the printer uses the capitals. |
| `I2cCommand.AnalysisCmd` | utilities/i2c_setting.cpp:105-152 | The parser fills the buffer with the request and the bytes of the digits, and refuses the command that completes a 34th byte. |
| `I2cCommand.ReadDigits` | utilities/i2c_setting.cpp:133-148 | The loop, with its early exit. |
| `I2cCommand.CharTo16Char` | utilities/i2c_setting.cpp:84-103 | Prints two digits for each byte with commas between and a final NUL, and writes nowhere else. |
| `I2cCommand.PrintedDigits` | utilities/i2c_setting.cpp:84-103 | The printed text has the digits of the bytes and no others. |
| `I2cCommand.PrintedAt` | utilities/i2c_setting.cpp:84-103 | Each byte is printed as its high and its low digit, with a comma before the next. |
| `I2cCommand.PrefixParses` | utilities/i2c_setting.cpp:112-126 | Each of the four prefixes Wr:, Rd:, WrNoP: and RdNoP: is recognised as its request, and what follows is the payload. |
| `I2cCommand.RoundTrip` | utilities/i2c_setting.cpp:58-152 | Printing up to 33 bytes after any prefix and parsing gives the same request and bytes back, the rest of the buffer 0. |
| `I2cCommand.TooLong` | utilities/i2c_setting.cpp:138-140 | 34 bytes or more are refused. |
| `I2cCommand.OnlyDigitsCount` | utilities/i2c_setting.cpp:133-148 | The outcome depends on the hex digits in order and on nothing else after the prefix. |
| `I2cCommand.LastDigitIsHigh` | utilities/i2c_setting.cpp:133-148 | A digit left over at the end counts as if a 0 came after it. |
| `I2cCommand.OthersAreRefused` | utilities/i2c_setting.cpp:112-126 | A text that begins with none of the four prefixes is no command and leaves the buffer alone. |

## Left out

Assumptions about what lies outside the modelled code:

- Hardware CRC mode, mutexes, the HAL and the audio driver are foreign code; the flash HAL is assumed to store the data of a call that succeeds, and a call that fails counts as storing nothing.
- The handler that `irq_handler` calls is assumed to clear the interrupt; outside calls of `disable_interrupt` and `clear_interrupt` are not part of ticker runs.
- The compare register is assumed to fire for a match that was at least the minimum number of ticks ahead when the counter was read back, as the constructor's parameters promise.
- Sectors are assumed to hold whole pages and to begin at multiples of their own size, as the code's `addr % current_sector_size` needs, and the flash to end below 2^32.
- The shapes of Adafruit_GFX are compiled only with a configuration switch that the repository leaves off; they are modelled as if it were on.
- Plain `char` is unsigned, as on the target.

Weaker than one might wish:

- LowPowerTicker.RunKeeps: a match whose interrupt was cleared without being accepted is exempt, because the property is false of it (`MatchCanBeLost`); `SpuriousExactly` gives the exact condition.
- LowPowerTicker.DeliveredBy: within one wrap of setting the match, and not for a match for the very tick it is set at, which is never accepted.
- LowPowerTickerWrapper.Wrapper.Suspend: needs fewer than a full counter's worth of ticks between writes, without which the polling loop of the source does not end (`SuspendEndsExactly`); the same for `WaitForWrite`.
- MbedCrc.TableComputePartial: the nibble table at widths up to 16, where the loops of the source index beyond its 16 entries; the same for `ComputePartial` and `Compute`.
- CrcDefaults.IbmCrcsAgreeExactly: about a message and its prefixes, because two wrong lookups can cancel in a message alone; `IbmCrcAgrees` is the one direction for a message alone.
- CrcTableMode.PartialSplits: the nibble form only at width 32; below that it is false (`NibbleSplitsExactly`).
- CrcDefaults.TableModeIsBitwiseMode: a table chosen for a polynomial at a width not its own is not covered; the source does not check it.
- FlashDriver.FlashIAP.Program: what the HAL makes of improper calls, which an accepted range outside the flash leads to, is not modelled.
- FlashDriver.FlashIAP.Erase: covers as many HAL calls as it is given answers, because from the middle of a sector the loop need not end.
- Display.Panel.constructor: heights that are not multiples of 8 are excluded; the buffer is then too small (`InBoundsExactly`).
- Display.Panel.DrawLine: a last major coordinate of 32767, after which the `int16_t` counter wraps and the loop does not end (`CounterReaches`).
- Display.Panel.DrawFastVLine: strips whose length does not fit an `int16_t`, which are not drawn right (`LineExactly`), or that end at 32767.
- Display.Panel.FillRect: the same for its columns, and rectangles that reach beyond 32767, for which the loop does not end (`CounterReaches`).
- Display.Panel.FillCircle: radii from 0 to 16383 with the whole circle in the `int16_t` range, and the helper only for both halves and no stretch, as `fillCircle` calls it.
- Display.Panel.DrawCircle: the same radii.
- Lock.UnlockedExactly: weights and goals are reals, and `atoi` does not overflow.
- UartSerial.Serial.TxIrq: `write` and `read` as wholes are the step sequences of `UartTransmit` and `UartReceive`, not methods of this class.

Not modelled:

- `fillTriangle`: its unbraced ifs swap unconditionally, so it does not sort as its comment says; no property to prove.
- `Password::is` and its operators: the loop never advances its argument, and the application does not use them.
- `char_to_16char` for length 0, which does not end.
- Rounded rectangles, text, bitmaps and the other corners of `drawCircleHelper`.
- SerialBase asynchronous transfers, SPI queues, QSPI, CAN, Ethernet and the thin port and pin classes.
- The network, messages, display text, lamps and timers of the application: only its servo commands are kept.
- Execution of parsed I2C commands on the bus.
