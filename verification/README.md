# Peripheral drivers of the STM32H7 HAL, modelled and proved

The drivers in `hal/` turn a buffer into a sequence of register writes and reads.  Here each
peripheral is a small abstract machine (an input FIFO, a function or a fold with a state, an output
FIFO or register) and each driver routine is a Dafny method that drives it with the same loops,
counters, branches and error returns.  The theorems say that what reaches the peripheral, and what
reaches memory, is what a plain sequence-level specification says, over whole calls and whole runs
of calls or interrupts.

| files | subject |
|---|---|
| `Words` | 32-bit words, bytes, 16-bit counters |
| `CrypCore`, `CrypHandle` | the cipher core as an uninterpreted block function with a chaining state; the handle with its FIFOs |
| `CrypAes`, `CrypApi`, `CrypChunks` | polling AES (ECB, CBC, CTR), the public call, a message sent in several calls |
| `CrypAesIt` | interrupt-driven AES over every interleaving of core and handler, during a transfer and after it |
| `CrypHeader`, `CrypHeaderPhase` | the GCM header: what must be sent, and the polling, DMA and interrupt ways to send it |
| `CrypGcm`, `CrypDma`, `CrypGcmApi` | GCM payloads, their last partial block, and the agreement of polling and DMA |
| `CrypTag`, `CrypGcmMessage` | the length block and tag; an authenticated message in several polling calls, buffers included |
| `CrypGcmPadding` | when the padded blocks of several calls are those of one, byte for byte |
| `CrypGcmRuns`, `CrypGcmWhole` | messages in any mix of polling and DMA calls, and the one call they amount to |
| `Cordic`, `CordicIt` | the CORDIC pipeline in polling, zero-overhead and interrupt mode |
| `Crc`, `CrcRemainder` | the CRC unit bit by bit, and that its register is the remainder of a polynomial division |
| `CrcHandle`, `CrcExact`, `CrcPolynomial` | the packed feeding, when packing shows, the polynomial check |
| `CecRun`, `Cec`, `CecTransmit` | the CEC interrupt handler: reception, transmission, both interleaved |
| `AdcInjected` | the injected-group context built over several calls |
| `DacCalibration` | the self-calibration search |

Conventions.  A ghost `Job` (or `HeaderJob`, `GcmJob`, `Message`) holds what one run has to do: input
words, the words due, the state before.  `Valid` pins the words due to the specification, a relation
such as `Transfer`, `Filling`, `Pipeline` or `Receives` says how far the run has got, and the method
contracts say how each step moves it.  Buffers are arrays with a base, so writing the output over the
input is covered wherever the driver reads before it writes.  Every FIFO write requires room and
every FIFO read requires a word, so the proofs also show that no run overfills or underruns a FIFO.

## Results that limit what the drivers do

Where a documented or expected property is not what the code does, the code was kept and the exact
condition proved.

- A payload counted in words is cut to 16 bits of bytes: `WordSizesExact` (fewer than 16384 words).
- The DMA and interrupt modes count a GCM header in words whatever its unit: `WordModesAgreeExact`;
  the 16-bit header counter repeats the header beyond 65536 words (`CounterExact`) and never ends the
  interrupt mode's header phase from 65536 words up (`HeaderEndsExact`).
- The DMA completion stores all four words of a last partial block, up to three more than polling:
  `StoredAgree`.
- A GCM message in several calls is the message in one call, for every payload, exactly if each call
  with a non-empty one after it is whole blocks: `ChunkingExact`.  A partial block in the middle puts
  its padding zeros between the payload bytes (`TwoBytes` has two calls of one byte), whichever the
  direction; when encrypting, NPBLB also stays set.  Bytes behind the payload in the last word are
  sent as they are: `SentBytes`.
- A first DMA call without payload leaves the core off, and so does any number of empty calls after it
  (`OffExact`).  A later polling call gets through exactly if `Powered` holds of it: otherwise its first
  block waits in the input FIFO for a core that is off (`StalledCall`).
- With configuration once, nothing configures the peripheral again after a tag: the next call has the core
  of the final phase and no header (`AfterTag`), and a polling call of a block or more, or one that
  decrypts, stalls (`CallAfterTag`).
- The GCM length block is that of NIST SP 800-38D, section 7.1, exactly while both bit lengths fit in
  32 bits: `LengthBlockExact`.
- Interrupt-driven AES ends, under fair events, exactly if the payload is empty or has a whole word:
  `CryptIt`.  With one to three bytes the interrupt stays raised, and the handler does nothing for ever
  (`PendingForNothing`, `Run`).  After completion the input interrupt stays enabled exactly if the whole
  words of the payload do not fill whole blocks; where it is heard although the peripheral is off, every
  further interrupt reports a busy error: `PendingAfterwards`, `TakeTurn`.
- A handle that is ready but locked is marked busy before the lock is looked at, and stays busy:
  `CrypApi.Begin`.
- A CORDIC timeout leaves two calculations in the unit (one in zero-overhead mode): `Outcome`.  A later
  call that finds room stores the results left over first, reports success, and leaves as many of its own:
  `Calculate`, `CalculateZO`, `CalculateAndServe`.  What it stores is the map of its function, whatever the
  function, exactly if nothing was left over: `LeftoverExact`, `LeftoverShows`.  It finds room exactly if
  the results left over and the first two calculations (all of them, if it is one) are at most two
  together: `Room`, and otherwise never returns: `StalledCalculate`.  The interrupt mode needs room for
  one; as it enables the interrupt before its first write, with a result left over the handler can
  also order calculations before the first one: `CalculateIt`, `RoomForOwn`.
- Packed CRC input is right for all data exactly if the input inversion is no wider than the data
  format: `PackingExact`.
- The polynomial check never looks at bit 31, although its comments say it finds the degree:
  `DocumentedExact`, `HighBitPasses`.
- The CEC receive pointer is rewound by a 16-bit count, which is right over a run exactly if no end or
  error comes after 65536 bytes or more: `StepExact`, `RunExact`.  A transmit error together with a
  receive error or lost arbitration leaves the handle busy: `IrqHandler`, `FreedExact`.
- Two calls for the same injected rank overlay their channels; the statement commented as clearing the
  rank clears nothing: `PlacedExact`, `ClearMaskEmpty`.  A call for one conversion in the middle of a
  context replaces what was built: the calls still to come load a context of length one with their
  channels and its own, never the one asked for (`ConfigureInterrupted`, `InterruptedIsLost`).
- Calibration cannot give trim 0, and a comparator that never rises spills into the next register bit:
  `CalibrationExact`, `CalibrationFails`.  The channel stays disabled afterwards.

## Model

| member | source | states |
|---|---|---|
| CrypCore.Split | hal/stm32h7xx_hal_cryp.c:1999-2060 | the core's output and chaining state on two parts of a message, cut at a block, are those on the whole |
| CrypCore.OutputPrefix | hal/stm32h7xx_hal_cryp.c:2679-2744 | the output for fewer blocks is a prefix of the output for more |
| CrypAes.Job.ValidMeansOutput | hal/stm32h7xx_hal_cryp.c:2679-2744 | the words a transfer must store are the core's block-wise output |
| CrypAes.DrainBlock | hal/stm32h7xx_hal_cryp.c:2720-2740 | four words leave DOUT, only those the payload still needs are stored, nothing else in the buffer changes |
| CrypAes.ProcessData | hal/stm32h7xx_hal_cryp.c:2679-2744 | one call moves input, core and output of the transfer by one block |
| CrypAes.Configure | hal/stm32h7xx_hal_cryp.c:1999-2037 | key and vector are loaded unless configured once already, the vector not in ECB |
| CrypAes.AesProcess | hal/stm32h7xx_hal_cryp.c:1999-2060 | a payload goes through completely, FIFOs empty, handle ready, peripheral off |
| CrypApi.WordSizesExact | hal/stm32h7xx_hal_cryp.c:933-941 | a size in words is processed in full if and only if it is below 16384 |
| CrypApi.Begin | hal/stm32h7xx_hal_cryp.c:914-960 | a busy handle gives an error and is unlocked by the polling entries only, a ready but locked one gives busy and is busy from then on, else the call takes its buffers and direction, a size in bytes as it is, and of a size in words four times that less a multiple of 65536, below 65536 |
| CrypApi.SizeNumbers | hal/stm32h7xx_hal_cryp.c:933-941 | the same for every size |
| CrypApi.AesCrypt | hal/stm32h7xx_hal_cryp.c:914-1032 | one call stores exactly the core's output for its input, sends exactly its input words, loads key and, but for ECB, vector unless configured once already, its size taken as above; a refused call leaves the handle busy and changes neither output, DIN nor loads |
| CrypChunks.ExtendMessage | hal/stm32h7xx_hal_cryp.c:1999-2060 | processing further blocks from the chaining state reached extends output and state of the message |
| CrypChunks.CryptMessage | hal/stm32h7xx_hal_cryp.c:1999-2060 | chunking invariance: any sequence of calls on whole blocks stores the words and leaves the state of the whole message, with one load of key and vector |
| CrypAesIt.AesProcessIt | hal/stm32h7xx_hal_cryp.c:2068-2126 | size 0 ends at once; any other size starts a transfer, of no blocks if there is no whole word |
| CrypAesIt.InputHalf | hal/stm32h7xx_hal_cryp.c:2761-2790 | one block goes in if FIFO and payload allow, the input callback comes exactly with the last word |
| CrypAesIt.OutputHalf | hal/stm32h7xx_hal_cryp.c:2791-2831 | one block comes out if there is one, completion exactly when all words are stored |
| CrypAesIt.PendingMeansWork | hal/stm32h7xx_hal_cryp.c:1702-1737 | while blocks are left an interrupt is raised if and only if the handler can move one, and some event can always move the transfer on |
| CrypAesIt.PendingForNothing | hal/stm32h7xx_hal_cryp.c:2761-2794 | with one to three bytes the interrupt is raised all the time, the core cannot move and no output changes |
| CrypAesIt.PendingAfterwards | hal/stm32h7xx_hal_cryp.c:2777-2816 | after completion an interrupt is raised if and only if the input one was never disabled and is not silenced by the peripheral being off |
| CrypAesIt.AesIt | hal/stm32h7xx_hal_cryp.c:2752-2848 | one handler run advances an unfinished transfer or completes it, and does nothing without blocks; on a handle that is not busy it unlocks, notes the error and touches no data |
| CrypAesIt.TakeTurn | hal/stm32h7xx_hal_cryp.c:1702-1737 | at any time after the start, the core or the handler moves the transfer on if it can; an error is reported exactly by an interrupt left over after completion |
| CrypAesIt.Run | hal/stm32h7xx_hal_cryp.c:2752-2848 | over every interleaving, all events going to the handler also after completion: stored words are a prefix of the result, output never passes input, completion comes once and only when all is stored, errors only from left-over interrupts |
| CrypAesIt.RunFairly | hal/stm32h7xx_hal_cryp.c:2752-2848 | however events are picked, three useful ones a block complete a transfer with blocks, and none completes one without |
| CrypAesIt.CryptIt | hal/stm32h7xx_hal_cryp.c:1174-1280 | from the call on, under fair events, the handle gets ready if and only if the payload is empty or has a whole word, then with the polling call's output, DIN words and chaining state, its size taken as above; one to three bytes leave it busy with the interrupt raised |
| CrypHeader.PaddedByteForByte | hal/stm32h7xx_hal_cryp.c:4379-4529 | the header stream is the header bytes, then zero bytes up to the next multiple of 16 |
| CrypHeader.CounterExact | hal/stm32h7xx_hal_cryp.c:4407-4420 | the stream sent through the 16-bit counter is the header if and only if it has at most 65536 words |
| CrypHeader.HeaderSizeNumbers | hal/stm32h7xx_hal_cryp.c:4379-4399 | the polling mode counts header bytes as they are, and of words four times their number less a multiple of 2^32 |
| CrypHeader.WordModesAgreeExact | hal/stm32h7xx_hal_cryp.c:4537-4672 | the word-counting modes send the polling stream for every header if and only if the unit is words without overflow, or it is empty |
| CrypHeader.SizeShows | hal/stm32h7xx_hal_cryp.c:4379-4399 | headers counted differently give different streams |
| CrypHeaderPhase.PutLastBlock | hal/stm32h7xx_hal_cryp.c:4467-4496 | the last block holds the remaining words, the masked partial word and zeros |
| CrypHeaderPhase.SetHeaderPhase | hal/stm32h7xx_hal_cryp.c:4379-4529 | any header size: the whole stream is sent and absorbed, and nothing else |
| CrypHeaderPhase.SetHeaderPhaseDma | hal/stm32h7xx_hal_cryp.c:4537-4672 | the same for the DMA mode, counting words |
| CrypHeaderPhase.CountIs | hal/stm32h7xx_hal_cryp.c:4680-4742 | the 16-bit count after k handler runs: up to the header size, or four times k modulo 65536 if the size does not fit |
| CrypHeaderPhase.HeaderIt | hal/stm32h7xx_hal_cryp.c:4680-4742 | for every header size, one handler run sends one block of the stream or, when all is sent, selects the payload phase; the unsigned difference never wraps, and the counter is the count above |
| CrypHeaderPhase.HeaderRun | hal/stm32h7xx_hal_cryp.c:4680-4742 | a header below 65536 words ends after one run per block and one more, with the word-counting polling stream; a longer one is sent round and round |
| CrypHeaderPhase.HeaderEndsExact | hal/stm32h7xx_hal_cryp.c:4686-4742 | the handler's counter reaches the header size if and only if it is below 65536 |
| CrypGcm.LastWordSize | hal/stm32h7xx_hal_cryp.c:3069-3077 | the words kept of the last block are those needed for its payload bytes |
| CrypGcm.WriteLastBlock | hal/stm32h7xx_hal_cryp.c:3079-3091 | the last input words in order, then zeros up to four |
| CrypGcm.ReadLastBlock | hal/stm32h7xx_hal_cryp.c:3114-3128 | four words leave DOUT, the first n are stored in order, nothing else changes |
| CrypGcm.SetPadding | hal/stm32h7xx_hal_cryp.c:3054-3068 | NPBLB is 16*ceil(Size/16)-Size before the last block when encrypting, unchanged when decrypting |
| CrypGcm.GcmPayload | hal/stm32h7xx_hal_cryp.c:3008-3129 | for every size: payload words then zeros on DIN, exactly ceil(Size/4) output words stored; NPBLB is what the last block lacks when encrypting a partial one, else untouched |
| CrypGcm.BlocksBeforeTail | hal/stm32h7xx_hal_cryp.c:3008-3046 | the whole blocks go through, and the partial one stays intact even when output overwrites input |
| CrypGcm.GcmConfigure | hal/stm32h7xx_hal_cryp.c:2909-3006 | running size, key, vector, header and payload phase exactly when the call has to configure, which also clears NPBLB |
| CrypDma.DmaTransfer | hal/stm32h7xx_hal_cryp.c:2620-2672 | the bulk transfer is the whole blocks, in order, and the input callback comes once |
| CrypDma.DmaOutCplt | hal/stm32h7xx_hal_cryp.c:2462-2583 | the completion callback adds the padded last block, its padding in NPBLB when encrypting, stores all its words and frees the handle |
| CrypDma.ShortPayload | hal/stm32h7xx_hal_cryp.c:3365-3452 | less than a block is done by the processor with the same padding: NPBLB is 16 less its bytes when encrypting |
| CrypDma.GcmPayloadDma | hal/stm32h7xx_hal_cryp.c:3344-3452 | for every size the DMA mode sends the polling stream with the same padding in NPBLB and hash, and one callback from one block up |
| CrypDma.StoredAgree | hal/stm32h7xx_hal_cryp.c:2552-2561 | DMA stores at least the payload words and exactly them if and only if there is no whole block, no rest, or a rest of more than 12 bytes |
| CrypGcmApi.PlanExists | hal/stm32h7xx_hal_cryp.c:2898-3129 | every call with room for its buffers has its work determined by the handle and the input before it |
| CrypGcmApi.GcmCrypt | hal/stm32h7xx_hal_cryp.c:2898-3142 | one polling call leaves the planned output, DIN words, hash, running size and enable bit, NPBLB being 16*ceil(Size/16)-Size when encrypting a size that is no multiple of 16, else what it was, or 0 if the call configured; from a core that is on or that its padding switches on; refusals leave the handle busy, locked only if it was ready and locked |
| CrypGcmApi.GcmCryptDma | hal/stm32h7xx_hal_cryp.c:3242-3456 | one DMA call leaves the same, NPBLB and running size included, from any core, and one callback from one block up; refusals leave the lock alone |
| CrypGcmApi.PollingAndDmaAgree | hal/stm32h7xx_hal_cryp.c:2462-2562 | mode refinement: from handles alike in state, lock, errors, key, vector and hash, NPBLB, phase, size sum and DIN both modes leave such handles and equal outputs on the payload words; the enable bits agree if and only if there is payload or nothing to configure, and only DMA calls back |
| CrypTag.LengthBlockExact | hal/stm32h7xx_hal_cryp_ex.c:114-122 | the driver's length block is the one of NIST SP 800-38D section 7.1 if and only if both bit lengths fit in 32 bits |
| CrypTag.GenerateAuthTag | hal/stm32h7xx_hal_cryp_ex.c:111-262 | the tag is the final-phase output for the length block; out of sequence, busy or locked calls are refused and change no data |
| CrypGcmMessage.PartFacts | hal/stm32h7xx_hal_cryp.c:2909-2931 | a part of a message produces, sends and leaves what it does within the whole |
| CrypGcmMessage.EmptyCall | hal/stm32h7xx_hal_cryp.c:2909-2931 | a call without payload behind a message changes nothing |
| CrypGcmMessage.SendMessage | hal/stm32h7xx_hal_cryp.c:2898-3129 | GCM chunking: polling calls whose sizes leave no seam leave what one call on the whole message leaves, output included, with one header, one configuration, sizes added up; the padding count of its last block is that of the sum |
| CrypGcmMessage.TotalBytesNumbers | hal/stm32h7xx_hal_cryp.c:2909-2931 | each call adds its bytes as they are, or four a word less a multiple of 65536 |
| CrypGcmMessage.LastCoreNumbers | hal/stm32h7xx_hal_cryp.c:3054-3068 | the core of the last block differs from that of the others in NPBLB only: 16*ceil(Size/16)-Size when encrypting a size that is no multiple of 16, else as it was |
| CrypGcmMessage.SendAndTag | hal/stm32h7xx_hal_cryp_ex.c:111-177 | after any such calls the final block holds header bits and all payload bits modulo 2^32, the standard's block while they fit |
| CrypGcmPadding.ChunkingExact | hal/stm32h7xx_hal_cryp.c:3048-3091 | calls of given sizes send the padded bytes of one call on everything, for all payloads, if and only if every call with a non-empty one after it is whole blocks |
| CrypGcmPadding.SeamShows | hal/stm32h7xx_hal_cryp.c:3079-3091 | with a partial block before a non-empty call a payload of 0xFF bytes tells the two apart |
| CrypGcmPadding.TwoBytes | hal/stm32h7xx_hal_cryp.c:3079-3091 | two calls of one byte send two blocks, one call of two bytes sends one |
| CrypGcmRuns.OffExact | hal/stm32h7xx_hal_cryp.c:3324-3351 | the core is off before a later call if and only if the message began with an empty DMA call and only empty calls followed |
| CrypGcmRuns.RunsExact | hal/stm32h7xx_hal_cryp.c:3324-3351 | a run of calls gets through if and only if every polling call after an empty beginning by DMA is empty or encrypts less than a block |
| CrypGcmRuns.StalledCall | hal/stm32h7xx_hal_cryp.c:2937-3060 | a polling call that nothing switches the core on for writes its first block, and the core can never take it |
| CrypGcmRuns.AfterTag | hal/stm32h7xx_hal_cryp.c:2909-2935 | after a tag a handle configured once sends no header, has the core of the final phase, and lets a polling call through if and only if it is empty or encrypts less than a block |
| CrypGcmRuns.CallAfterTag | hal/stm32h7xx_hal_cryp_ex.c:111-262 | a tag and then any other polling call: four words wait in the input FIFO for a core that is off |
| CrypGcmRuns.SumCalls | hal/stm32h7xx_hal_cryp.c:2909-2931 | any calls of a message, of any sizes, in any mix of polling and DMA that gets through, also in place: each starts from the hash, core and DIN words the one before left, takes its words from the input and stores what it produces where it was pointed to, nothing else in the output changes, and the sum of sizes is theirs modulo 2^32 |
| CrypGcmRuns.SumAndTag | hal/stm32h7xx_hal_cryp_ex.c:111-177 | the last four words on DIN are then the length block that counts exactly those bytes, and the tag is its final-phase output from the hash of the last call |
| CrypGcmWhole.SentBytes | hal/stm32h7xx_hal_cryp.c:3079-3091 | a call sends its payload bytes and zeros to the end of the block if and only if its last word has zeros behind the payload |
| CrypGcmWhole.SentByBytes | hal/stm32h7xx_hal_cryp.c:3079-3091 | the bytes that the calls of a run send are those of the chunking theorem |
| CrypGcmWhole.RunSends | hal/stm32h7xx_hal_cryp.c:2898-3129 | DIN after a run is DIN before its first payload and what the calls send |
| CrypGcmWhole.JobsMakeOne | hal/stm32h7xx_hal_cryp.c:2898-3129 | the jobs of calls without a seam are one job: the same words sent and produced, the same final hash and core |
| CrypGcmWhole.OutputStays | hal/stm32h7xx_hal_cryp.c:2552-2561 | the output words of a call are in the buffer in the end unless a later call was pointed there |
| CrypGcmWhole.RunInOrder | hal/stm32h7xx_hal_cryp.c:2898-3129 | calls without a seam, one behind the other, take their words from the input in order and leave what they produce in the output in order, also in place |
| CrypGcmWhole.MixedMessage | hal/stm32h7xx_hal_cryp_ex.c:111-177 | an authenticated message in any mix of modes, its sizes leaving no seam, leaves the DIN words and the tag of one call on everything, and its output if the calls lie one behind the other |
| Cordic.Handle.WriteIn | hal/stm32h7xx_hal_cordic.c:1210-1228 | one or two writes order one calculation, with room for it in the pipeline; with an argument open they complete that one first |
| Cordic.Handle.ReadOut | hal/stm32h7xx_hal_cordic.c:1236-1254 | one or two reads collect the oldest result at the pointer, nothing else changes |
| Cordic.JobExists | hal/stm32h7xx_hal_cordic.c:605-686 | every run with room for its buffers has its work determined by the unit and the input before it |
| Cordic.FeedWord | hal/stm32h7xx_hal_cordic.c:840-853 | whatever words the unit is given, what it holds and has delivered is the results left over and then those of the words, in order |
| Cordic.Store | hal/stm32h7xx_hal_cordic.c:1236-1254 | the oldest of these goes to its place in the output, nothing else changes |
| Cordic.WaitReady | hal/stm32h7xx_hal_cordic.c:646-663 | the wait expires if and only if one of its tick readings is beyond the timeout, else it lasts until the flag is seen |
| Cordic.Calculate | hal/stm32h7xx_hal_cordic.c:605-686 | from a unit with room: the first n of the results left over and its own are in place and the others in the unit, or a timeout with a correct prefix and two in flight, the latter if and only if one of the tick readings, one before each reading of the flag, is beyond the timeout; refusals change nothing but the error code |
| Cordic.CalculateZO | hal/stm32h7xx_hal_cordic.c:699-783 | the same with one in flight, timing out if and only if one of the tick readings is beyond the timeout |
| Cordic.StalledCalculate | hal/stm32h7xx_hal_cordic.c:633-644 | without room the call has a word to write to a unit that holds two results before it reads any |
| Cordic.InTimeMeans | hal/stm32h7xx_hal_cordic.c:744-758 | in time means every reading so far is within the timeout |
| Cordic.InTimeNumbers | hal/stm32h7xx_hal_cordic.c:744-758 | that is: the timeout is HAL_MAX_DELAY, or every reading is at most the timeout after the first one, modulo 2^32 |
| Cordic.AllStored | hal/stm32h7xx_hal_cordic.c:605-686 | after a finished run position i holds result i of those left over and its own, as many are left as there were, and from an idle unit result i is the function of argument i, or of arguments 2i and 2i+1 |
| Cordic.LeftoverExact | hal/stm32h7xx_hal_cordic.c:605-686 | what a run stores is the map of its function over its input, for every function, if and only if nothing was left over |
| Cordic.LeftoverShows | hal/stm32h7xx_hal_cordic.c:1101-1127 | with a result left over, whatever words the unit is given and in whatever order, some function tells what is stored from its map |
| CordicIt.CalculateIt | hal/stm32h7xx_hal_cordic.c:792-868 | from an idle unit the first calculation is ordered and counters and pointers stand accordingly; with results left over interrupts may come before and between its words, and the words the unit was given are those of the handler and of the call as they interleave |
| CordicIt.RoomForOwn | hal/stm32h7xx_hal_cordic.c:840-853 | the words of the call find room if and only if one result at most was left over, or two and the handler has collected everything |
| CordicIt.IrqHandler | hal/stm32h7xx_hal_cordic.c:1101-1146 | a useful run collects one result and orders the next, keeping get = order + 1; the last one completes; other runs change nothing |
| CordicIt.Run | hal/stm32h7xx_hal_cordic.c:1101-1146 | over any interrupts, each that finds a result collects one and orders the next, n of them complete with one callback, later ones change nothing, and the words given to the unit follow from how many there were |
| CordicIt.CalculateAndServe | hal/stm32h7xx_hal_cordic.c:792-1146 | a call and any interrupts, before, between and after its words: from an idle unit the output is the map after exactly n useful interrupts; with one left over the results come one late, and one is left over again |
| Crc.Unit.FeedJoin | hal/stm32h7xx_hal_crc.c:287-325 | feeding bits in two parts is feeding them at once |
| Crc.Unit.StepsAdd | hal/stm32h7xx_hal_crc.c:287-325 | feeding is additive under exclusive or, in the register and in the data |
| CrcRemainder.FeedIsCrc | hal/stm32h7xx_hal_crc.c:322-381 | for every polynomial, start value and message, and for each of the four sizes n, the register is the remainder over GF(2) of the message times x^n, with the low n bits of the start value in front of it, by the polynomial with its leading x^n |
| CrcRemainder.CrcUnique | hal/stm32h7xx_hal_crc.c:322-381 | no other number is that remainder |
| CrcRemainder.FromZero | hal/stm32h7xx_hal_crc.c:322-381 | from start value 0 what is divided is the message times x^n alone |
| Crc.WriteNumbers | hal/stm32h7xx_hal_crc.c:432-503 | the bits of a write are the binary digits of the number its bytes make, the first byte on top |
| Crc.EnteredBits | hal/stm32h7xx_hal_crc_ex.c:168-184 | in each inversion mode, what enters is the write with every bit, byte, half-word or word turned around in its place |
| Crc.InvertedJoin | hal/stm32h7xx_hal_crc_ex.c:168-184 | whole blocks are inverted independently of what follows |
| Crc.PackedBytesAgree | hal/stm32h7xx_hal_crc.c:432-473 | with no or byte-wise inversion the packed bytes enter as the bytes one at a time |
| Crc.PackedHalvesAgree | hal/stm32h7xx_hal_crc.c:483-503 | with at most half-word inversion packed half-words enter as one at a time |
| CrcHandle.Handle.Handle8 | hal/stm32h7xx_hal_crc.c:432-473 | four bytes a word, then the tails of one, two or three bytes, enter in order |
| CrcHandle.Handle.Handle16 | hal/stm32h7xx_hal_crc.c:483-503 | two half-words a word, then one, enter in order |
| CrcHandle.Handle.Accumulate | hal/stm32h7xx_hal_crc.c:287-325 | goes on from the register, which becomes the CRC of the data from its old value; an undefined format enters nothing and gives 0 |
| CrcHandle.Handle.Calculate | hal/stm32h7xx_hal_crc.c:339-381 | the same from the initial value: the result is the CRC of the data |
| CrcHandle.PackedJoin | hal/stm32h7xx_hal_crc.c:287-325 | under matching inversions data may be cut anywhere |
| CrcHandle.Handle.CalculateInMany | hal/stm32h7xx_hal_crc.c:287-381 | one Calculate and any Accumulates leave the CRC of all the data, fed one unit at a time, from the initial value |
| CrcExact.PackingExact | hal/stm32h7xx_hal_crc.c:432-503 | packing is invisible, and data may be cut anywhere, for all polynomials, starts and buffers, if and only if the inversion is no wider than the format |
| CrcPolynomial.HighestBit | hal/stm32h7xx_hal_crc_ex.c:111-113 | the decrementing search ends, without wrapping, at the highest set bit below bit 31 |
| CrcPolynomial.Check | hal/stm32h7xx_hal_crc_ex.c:89-145 | accepted if and only if odd and, below bit 31, smaller than 2 to the length: any, 0x10000, 0x100 or 0x80 for codes 0, 8, 0x10 and 0x18, no other code passing |
| CrcPolynomial.AcceptedNumbers | hal/stm32h7xx_hal_crc_ex.c:89-145 | the same, and the comments' version, code by code |
| CrcPolynomial.Registers.PolynomialSet | hal/stm32h7xx_hal_crc_ex.c:146-155 | POL and the size field are written exactly on success, nothing else changes |
| CrcPolynomial.DocumentedExact | hal/stm32h7xx_hal_crc_ex.c:103-110 | when the check is the one its comments describe |
| CrcPolynomial.HighBitPasses | hal/stm32h7xx_hal_crc_ex.c:111-121 | a concrete polynomial of degree 31 that passes as one of seven bits |
| CecRun.Rx.StepExact | hal/stm32h7xx_hal_cec.c:806-821 | one interrupt hands over exactly the frame and its base if and only if it has fewer than 65536 bytes |
| CecRun.Rx.StepFlags | hal/stm32h7xx_hal_cec.c:775-892 | flag by flag: a byte is appended, the end hands the frame over, each of RXOVR, BRE, SBPE, LBPE and RXACKE drops what was received and rewinds, no other flag moves the reception |
| CecRun.RunExact | hal/stm32h7xx_hal_cec.c:775-892 | over any run every callback gets exactly the bytes since the last end or error, at the current buffer, if and only if no end or error comes after 65536 bytes or more; otherwise frames or place are wrong for good |
| Cec.Handle.HandleEnd | hal/stm32h7xx_hal_cec.c:806-821 | the callback sees the rewound pointer and may change the buffer; the count restarts |
| Cec.Handle.HandleErrors | hal/stm32h7xx_hal_cec.c:860-892 | each of RXOVR, BRE, SBPE, LBPE, RXACKE drops the frame; TXUDR, TXERR or TXACKE without one of these and without ARBLST frees the transmitter; error code and callback move exactly with one of the eight |
| Cec.Handle.IrqHandler | hal/stm32h7xx_hal_cec.c:775-892 | for any flags: reception moves by its step, one byte leaves per request with the mark before the last; state, error code and error callback as each flag says, none of the others moving them |
| CecTransmit.SentInOrder | hal/stm32h7xx_hal_cec.c:697-837 | TXDR gets the header, then the data bytes in order |
| CecTransmit.EomOnce | hal/stm32h7xx_hal_cec.c:697-837 | the end mark is set once, just before the last write, before the header if there is no data; the start mark right behind the header |
| CecTransmit.TransmitIt | hal/stm32h7xx_hal_cec.c:697-744 | the header leaves at once; busy, locked and missing data are refused |
| CecTransmit.Run | hal/stm32h7xx_hal_cec.c:775-892 | over any run of interrupts the message is sent as far as requested and reception is the run of its events |
| CecTransmit.FreedExact | hal/stm32h7xx_hal_cec.c:839-884 | a run makes the handle ready to transmit if and only if some interrupt has TXEND, or one of the three transmit errors with neither ARBLST nor one of the five receive errors |
| CecTransmit.Transmission | hal/stm32h7xx_hal_cec.c:697-892 | a call and any run of interrupts with as many requests as data bytes write header and data to TXDR in order, with any reception going on |
| AdcInjected.ImageFields | hal/stm32h7xx_hal_adc_ex.c:1985-1999 | each rank's field of the image is its channels on top of each other |
| AdcInjected.ImageHead | hal/stm32h7xx_hal_adc_ex.c:1946-1983 | the length bits read as a number are the first call's conversions less one, bits 2 to 6 its trigger, and bits 7 and 8 its edge as a number, 0 for a software start |
| AdcInjected.PlacedExact | hal/stm32h7xx_hal_adc_ex.c:1985-1999 | every channel is at its own rank if and only if no rank gets two different channels |
| AdcInjected.LoadShows | hal/stm32h7xx_hal_adc_ex.c:2001-2006 | JSQR then shows these numbers, bits 26 to 30 of each channel in the five bits from 9, 15, 21 or 27 for its rank, and its old bits 14, 20 and 26 |
| AdcInjected.FreeRankShows | hal/stm32h7xx_hal_adc_ex.c:2001-2006 | the field of a rank that no call configures reads 0 |
| AdcInjected.ClearMaskEmpty | hal/stm32h7xx_hal_adc_ex.c:1985-1988 | the mask meant to clear a rank is empty |
| AdcInjected.Handle.InjectedConfigChannel | hal/stm32h7xx_hal_adc_ex.c:1904-2007 | a call either leaves JSQR alone or, as the last of its context, loads the whole image; single ranks load at once and replace a context being built |
| AdcInjected.ConfigureContext | hal/stm32h7xx_hal_adc_ex.c:1951-2007 | n calls write JSQR once, with the image, and the count is back to 0 |
| AdcInjected.ConfigureContexts | hal/stm32h7xx_hal_adc_ex.c:1951-2007 | over any series of contexts JSQR gets one write per context |
| AdcInjected.ConfigureInterrupted | hal/stm32h7xx_hal_adc_ex.c:1904-2007 | a single-rank call after k calls of a context: two writes, its own image and that of a context of it and the remaining calls |
| AdcInjected.InterruptedIsLost | hal/stm32h7xx_hal_adc_ex.c:1904-2007 | that is never the context asked for: length one, the trigger of the single call, and the channels of it and of the remaining calls only |
| DacCalibration.DescendFinds | hal/stm32h7xx_hal_dac_ex.c:627-672 | within its bracket the search finds the threshold, outside it ends at the nearer end |
| DacCalibration.SearchFinds | hal/stm32h7xx_hal_dac_ex.c:627-672 | for any trim width the search finds every threshold from 1 to the top |
| DacCalibration.Handle.FindTrim | hal/stm32h7xx_hal_dac_ex.c:627-672 | the loop and its correction leave the search's result in the channel's trim field, all else untouched |
| DacCalibration.Handle.SelfCalibrate | hal/stm32h7xx_hal_dac_ex.c:575-685 | the channel disabled, the trim found, data 0x800, the mode restored, the other channel untouched; busy and locked handles are refused |
| DacCalibration.CalibrationExact | hal/stm32h7xx_hal_dac_ex.c:646-672 | the threshold is in the trim field if and only if it is 1 to 31 |
| DacCalibration.CalibrationFails | hal/stm32h7xx_hal_dac_ex.c:633-672 | a threshold of 0 ends at trim 1, one of 32 clears the field and sets the bit above it |

## Left out

- The AES, DES and GHASH mathematics: the core is any function from mode, key, chaining state and block to a new state and a block.
- Timeouts of the CRYP driver: FIFO flags are assumed to arrive; the polling loops' timeout returns are not modelled.
- The interrupt mode's GCM payload phase (hal/stm32h7xx_hal_cryp.c:4162): its completion depends on output readiness at one moment.
- CCM, DES, the error for other algorithms, the extra pass that prepares the key of ECB and CBC decryption, the workaround for silicon before revision B, data swapping below it, suspend and resume.
- Encryption and decryption entry points are one member each, and the header loops with and without a partial last block are one member, since they run the same steps.
- CrypApi.AesCrypt: a size that is no multiple of 16 bytes is covered as the code treats it (whole words stored, the last block read past the payload), which no documentation promises.
- CrypGcmMessage.SendMessage: is for polling calls; messages with DMA calls among them are CrypGcmWhole.MixedMessage.
- CrypGcmRuns.StalledCall: ends where the driver waits for the output FIFO, whose timeout is not modelled.
- CrypDma.DmaTransfer: the DMA controller is a loop that moves block after block; its errors, bursts and interleaving with the processor are not modelled.
- CrypAesIt.RunFairly: an event that can do something is assumed to be taken when the picked one cannot; whether the input interrupt is heard while the peripheral is off is left open, and the theorems hold either way.
- The CORDIC DMA mode and configuration, and a unit reconfigured with results left in it.
- Cordic.Calculate: from a unit without room for its first writes the call is StalledCalculate; what the stalled bus does then is not modelled.
- Cordic.CalculateZO: from a unit without room for its first writes, as above.
- CordicIt.CalculateIt: with two results left over it is covered if interrupts collect everything before the call's own words; otherwise the bus stalls, as above.
- CordicIt.CalculateAndServe: an interrupt falls between two register accesses of the call, not within one of the handler's own.
- Cordic.WaitReady: the result is assumed to become ready after some finite number of readings of the flag.
- Output inversion of the CRC unit and the independent data register; a write narrower than the inversion is taken to be reversed as a whole.
- CEC flags that arrive while the handler runs (clearing one flag writes back all that are set), register writes other than TXDR and the message marks, and a callback that starts the next transmission.
- CecTransmit.Run: a byte is requested at most once per data byte, as the hardware does once the end mark is set; a further request would make the count wrap.
- CecTransmit.TransmitIt: sizes from 65536 up, which the 16-bit count cannot hold, and logical addresses of more than four bits are excluded by the driver's own parameter checks.
- The ADC's sampling times, offsets, differential mode, auto-injection and queue settings; ranks and conversion counts are those its parameter checks allow.
- DacCalibration.Handle.SelfCalibrate: the comparator is monotone in the trim; delays are not modelled, nor are null handles.
- Initialization beyond reset values, MSP hooks, callback registration, and the rest of the repository (board support, clock and pin set-up).
