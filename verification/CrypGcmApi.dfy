/** GCM calls in polling and DMA mode. */
module CrypGcmApi {
  import opened Words
  import opened CrypCore
  import opened CrypHandle
  import opened CrypHeader
  import opened CrypHeaderPhase
  import A = CrypAes
  import opened CrypGcm
  import opened CrypDma
  import opened CrypApi

  /** The header bytes a mode counts. */
  function HeaderBytes(init: Config, dma: bool): nat {
    if dma then 4 * init.headerSize else SizeInBytes(init.headerUnit, init.headerSize)
  }

  /** The header a call has to absorb, if it has to configure the peripheral. */
  ghost predicate HeaderPlan(h: Handle, dma: bool, direction: Direction, header: HeaderJob)
    reads h`keyIvConfigured, h`npblb, h`din
  {
    h.NeedsConfig() ==>
      && header.Valid() && header.header == h.init.header && header.chain == h.init.iv && header.din0 == h.din
      && header.whole == HeaderBytes(h.init, dma) / 4 && header.tail == HeaderBytes(h.init, dma) % 4
      && header.core == Core(h.cipher, Mode(Gcm, direction, HeaderPhase, h.npblb), h.init.key)
  }

  /** What stands before the payload of a call: its core, its chaining state and what DIN has seen. */
  ghost predicate PayloadStart(h: Handle, direction: Direction, header: HeaderJob, job: A.Job)
    reads h`keyIvConfigured, h`gcmPhase, h`npblb, h`keyReg, h`chain, h`din
  {
    if h.NeedsConfig() then
      && 4 * header.blocks == |header.stream|
      && job.core == Core(h.cipher, Mode(Gcm, direction, PayloadPhase, 0), h.init.key)
      && job.chain == header.Chain(header.blocks) && job.din0 == h.din + header.stream
    else
      job.core == CallCore(h, direction) && job.chain == h.chain && job.din0 == h.din
  }

  /** The payload of a call and where it lies. */
  ghost predicate PayloadPlan(direction: Direction, bytes: nat, input: array<Word>, inBase: nat,
                              output: array<Word>, outBase: nat, job: GcmJob)
    reads input, output
  {
    && job.Valid() && bytes == 16 * job.full.blocks + job.rest && job.full.words == bytes / 4
    && job.lastCore == LastCore(job.full.core, direction, job.rest)
    && A.Holds(input, inBase, job.full.src) && A.Holds(input, inBase + |job.full.src|, job.tail)
    && job.full.out0 == output[..]
    && (input == output ==> outBase <= inBase)
  }

  /** The whole work of a GCM call, in terms of the handle before it. */
  ghost predicate Plan(h: Handle, dma: bool, direction: Direction, bytes: nat, input: array<Word>, inBase: nat,
                       output: array<Word>, outBase: nat, header: HeaderJob, job: GcmJob)
    reads h`keyIvConfigured, h`gcmPhase, h`npblb, h`keyReg, h`chain, h`din, input, output
  {
    && HeaderPlan(h, dma, direction, header)
    && PayloadStart(h, direction, header, job.full)
    && PayloadPlan(direction, bytes, input, inBase, output, outBase, job)
  }

  ghost function JobOf(core: Core, chain: Chain, din0: seq<Word>, direction: Direction, src: seq<Word>, tail: seq<Word>,
                       rest: nat, out0: seq<Word>): (job: GcmJob)
    requires |src| % 4 == 0 && rest < 16 && |tail| == Quads(rest)
    ensures job.Valid() && job.rest == rest && job.tail == tail && 4 * job.full.blocks == |src|
    ensures job.full.core == core && job.full.chain == chain && job.full.din0 == din0 && job.full.src == src
    ensures job.full.out0 == out0 && job.full.words == |src| + rest / 4
    ensures job.lastCore == LastCore(core, direction, rest)
  {
    GcmJob(A.MakeJob(core, chain, src, |src| + rest / 4, din0, out0), rest, tail, LastCore(core, direction, rest))
  }

  lemma WordsOf(blocks: nat, rest: nat)
    requires rest < 16
    ensures Quads(16 * blocks + rest) == 4 * blocks + Quads(rest)
    ensures (16 * blocks + rest) / 4 == 4 * blocks + rest / 4
    ensures WholeBlocks(16 * blocks + rest) == 4 * blocks + if rest == 0 then 0 else 4
  {
  }

  /** Every call with room for its buffers has a plan. */
  lemma PlanExists(h: Handle, dma: bool, direction: Direction, bytes: nat, input: array<Word>, inBase: nat,
                   output: array<Word>, outBase: nat) returns (header: HeaderJob, job: GcmJob)
    requires inBase + Quads(bytes) <= input.Length && (input == output ==> outBase <= inBase)
    requires Min(Quads(HeaderBytes(h.init, dma)), 0x1_0000) <= |h.init.header|
    ensures Plan(h, dma, direction, bytes, input, inBase, output, outBase, header, job)
    ensures header.stream == HeaderStream(h.init.header, HeaderBytes(h.init, dma))
  {
    header := MakeHeaderJob(Core(h.cipher, Mode(Gcm, direction, HeaderPhase, h.npblb), h.init.key), h.init.iv,
                            h.init.header, HeaderBytes(h.init, dma), h.din);
    if h.NeedsConfig() {
      job := PayloadOf(Core(h.cipher, Mode(Gcm, direction, PayloadPhase, 0), h.init.key), header.Chain(header.blocks),
                       h.din + header.stream, direction, bytes, input, inBase, output, outBase);
    } else {
      job := PayloadOf(CallCore(h, direction), h.chain, h.din, direction, bytes, input, inBase, output, outBase);
    }
  }

  lemma PayloadOf(core: Core, chain: Chain, din0: seq<Word>, direction: Direction, bytes: nat,
                  input: array<Word>, inBase: nat, output: array<Word>, outBase: nat) returns (job: GcmJob)
    requires inBase + Quads(bytes) <= input.Length && (input == output ==> outBase <= inBase)
    ensures PayloadPlan(direction, bytes, input, inBase, output, outBase, job)
    ensures job.full.core == core && job.full.chain == chain && job.full.din0 == din0
  {
    var blocks, rest := bytes / 16, bytes % 16;
    WordsOf(blocks, rest);
    var last := inBase + 4 * blocks;
    HoldsItself(input, inBase, 4 * blocks);
    HoldsItself(input, last, Quads(rest));
    job := JobOf(core, chain, din0, direction, input[inBase..last], input[last..last + Quads(rest)], rest, output[..]);
  }

  lemma HoldsItself(buffer: array<Word>, at: nat, n: nat)
    requires at + n <= buffer.Length
    ensures A.Holds(buffer, at, buffer[at..at + n])
  {
  }

  /** The running sum of sizes: a new message restarts it. */
  function NextSum(first: bool, sum: nat, bytes: nat): nat {
    if first then bytes else (sum + bytes) % 0x1_0000_0000
  }

  /**
   A peripheral that may take the next GCM call.  A configured one is not left in the header phase;
   after a tag it is in the final phase, and nothing selects another.
   */
  predicate MayCall(h: Handle)
    reads h`keyIvConfigured, h`gcmPhase, h`inFifo, h`outFifo
  {
    h.init.algorithm == Gcm && h.Drained() && (!h.NeedsConfig() ==> h.gcmPhase != HeaderPhase)
  }

  /** A call that configures, or goes by DMA, switches the core on; another one needs it to be on. */
  predicate Powered(h: Handle, dma: bool, direction: Direction, bytes: nat)
    reads h`keyIvConfigured, h`enabled
  {
    h.NeedsConfig() || dma || Passes(h.enabled, direction, bytes)
  }

  /** Whether the core is on after a call. */
  function OnAfter(first: bool, enabled: bool, dma: bool, bytes: nat): bool {
    bytes > 0 || (if first then !dma else enabled)
  }

  /** What both modes leave behind. */
  ghost predicate GcmResult(h: Handle, job: GcmJob, stored: nat, output: array<Word>, outBase: nat)
    reads h, output
  {
    h.state == Ready && !h.locked && Delivered(h, job, stored, output, outBase)
  }

  /** The payload is through. */
  ghost predicate Delivered(h: Handle, job: GcmJob, stored: nat, output: array<Word>, outBase: nat)
    reads h`direction, h`gcmPhase, h`npblb, h`keyReg, h`chain, h`inFifo, h`outFifo, h`din, output
  {
    && job.Valid() && stored <= |job.Produced()| && h.Drained()
    && h.Engine() == job.lastCore && h.chain == job.FinalChain() && h.din == job.full.din0 + job.Sent()
    && Written(output, job.full.out0, outBase, job.Produced()[..stored])
  }

  /** What a call finds in the handle besides its data. */
  datatype Found = Found(first: bool, enabled: bool, sum: nat, phase: MessagePhase, keyed: bool, loads: seq<Load>,
                         errors: set<ErrorFlag>, outCplt: nat)

  ghost function Finds(h: Handle): Found
    reads h
  {
    Found(h.NeedsConfig(), h.enabled, h.sizesSum, h.messagePhase, h.keyIvConfigured, h.loads + h.StartLoads(), h.errors,
          h.outCplt)
  }

  /** What all stages of a call do to that. */
  ghost predicate Counts(h: Handle, bytes: nat, was: Found)
    reads h`sizesSum, h`messagePhase, h`keyIvConfigured, h`loads
  {
    && h.sizesSum == NextSum(was.first, was.sum, bytes) && h.messagePhase == (if was.first then Process else was.phase)
    && h.keyIvConfigured == (h.init.configOnce || was.keyed) && h.loads == was.loads
  }

  /** Key, vector and header are done as far as the call needs them: the payload is next. */
  ghost predicate PayloadNext(h: Handle, dma: bool, job: GcmJob, was: Found)
    reads h, h.input, h.output
  {
    && h.Drained() && h.inCount == h.outCount == 0 && !h.AbsorbsOnly()
    && h.enabled == (if was.first then !dma else was.enabled)
    && DescribesPayload(h, job) && Counts(h, job.Bytes(), was)
  }

  /** What a call leaves in the handle besides its data. */
  ghost predicate Left(h: Handle, dma: bool, job: GcmJob, was: Found)
    reads h
  {
    && MayCall(h) && h.enabled == OnAfter(was.first, was.enabled, dma, job.Bytes()) && Counts(h, job.Bytes(), was)
    && h.errors == was.errors && h.outCplt == was.outCplt + if dma && job.full.blocks > 0 then 1 else 0
  }

  method ConfigureCall(h: Handle, dma: bool, ghost header: HeaderJob, ghost job: GcmJob)
    requires MayCall(h) && h.inCount == h.outCount == 0
    requires Plan(h, dma, h.direction, h.size, h.input, h.inBase, h.output, h.outBase, header, job)
    requires h.outBase + |job.full.src| + |job.tail| <= h.output.Length
    modifies h`sizesSum, h`keyIvConfigured, h`headerCount, h`messagePhase, h`gcmPhase, h`npblb, h`enabled
    modifies h`keyReg, h`loads, h`chain, h`inFifo, h`outFifo, h`din
    ensures h.npblb == if old(h.init.configOnce && h.keyIvConfigured) then old(h.npblb) else 0
    ensures PayloadNext(h, dma, job, old(Finds(h)))
  {
    GcmConfigure(h, dma, header);
    PlannedIsDescribed(h, job);
  }

  lemma PlannedIsDescribed(h: Handle, job: GcmJob)
    requires PayloadPlan(h.direction, h.size, h.input, h.inBase, h.output, h.outBase, job)
    requires job.full.core == h.Engine() && job.full.chain == h.chain && job.full.din0 == h.din
    requires h.outBase + |job.full.src| + |job.tail| <= h.output.Length
    ensures DescribesPayload(h, job)
  {
  }

  /** The polling payload and the release of the handle. */
  method PayloadByPolling(h: Handle, ghost job: GcmJob, ghost was: Found)
    requires h.init.algorithm == Gcm && PayloadNext(h, false, job, was) && h.errors == was.errors
      && h.outCplt == was.outCplt
    requires was.first || Passes(was.enabled, h.direction, job.Bytes())
    modifies h`npblb, h`enabled, h`inCount, h`outCount, h`chain, h`inFifo, h`outFifo, h`din, h.output
    ensures h.npblb == if h.direction == Encryption && job.rest != 0 then 16 - job.rest else old(h.npblb)
    ensures Delivered(h, job, |job.full.src| + |job.tail|, h.output, h.outBase)
    ensures Left(h, false, job, was)
  {
    GcmPayload(h, job);
  }

  method Release(h: Handle, ghost job: GcmJob, ghost stored: nat, ghost was: Found)
    requires Delivered(h, job, stored, h.output, h.outBase) && Left(h, false, job, was)
    modifies h`state, h`locked
    ensures GcmResult(h, job, stored, h.output, h.outBase) && Left(h, false, job, was)
  {
    h.state := Ready;
    h.locked := false;
  }

  method PayloadAndRelease(h: Handle, ghost job: GcmJob, ghost was: Found)
    requires h.init.algorithm == Gcm && PayloadNext(h, false, job, was) && h.errors == was.errors
      && h.outCplt == was.outCplt
    requires was.first || Passes(was.enabled, h.direction, job.Bytes())
    modifies h`npblb, h`enabled, h`inCount, h`outCount, h`chain, h`inFifo, h`outFifo, h`din, h.output
    modifies h`state, h`locked
    ensures h.npblb == if h.direction == Encryption && job.rest != 0 then 16 - job.rest else old(h.npblb)
    ensures GcmResult(h, job, |job.full.src| + |job.tail|, h.output, h.outBase)
    ensures Left(h, false, job, was)
  {
    PayloadByPolling(h, job, was);
    Release(h, job, |job.full.src| + |job.tail|, was);
  }

  /** A call was accepted with these buffers. */
  ghost predicate Taken(h: Handle, direction: Direction, bytes: nat, input: array<Word>, inBase: nat,
                        output: array<Word>, outBase: nat)
    reads h
  {
    && h.direction == direction && h.size == bytes && h.inCount == h.outCount == 0
    && h.input == input && h.inBase == inBase && h.output == output && h.outBase == outBase
  }

  /** A polling call once it is accepted. */
  method Proceed(h: Handle, ghost direction: Direction, ghost bytes: nat, ghost input: array<Word>, ghost inBase: nat,
                 ghost output: array<Word>, ghost outBase: nat, ghost header: HeaderJob, ghost job: GcmJob,
                 ghost was: Found)
    requires MayCall(h) && Powered(h, false, direction, bytes)
      && Taken(h, direction, bytes, input, inBase, output, outBase)
    requires Plan(h, false, direction, bytes, input, inBase, output, outBase, header, job)
    requires outBase + |job.full.src| + |job.tail| <= output.Length
    requires Finds(h) == was
    modifies h`sizesSum, h`keyIvConfigured, h`headerCount, h`messagePhase, h`gcmPhase, h`npblb, h`enabled
    modifies h`keyReg, h`loads, h`chain, h`inFifo, h`outFifo, h`din, h`inCount, h`outCount, output, h`state, h`locked
    ensures h.npblb == if h.direction == Encryption && job.rest != 0 then 16 - job.rest
      else (if old(h.init.configOnce && h.keyIvConfigured) then old(h.npblb) else 0)
    ensures GcmResult(h, job, |job.full.src| + |job.tail|, output, outBase)
    ensures Left(h, false, job, was)
  {
    ConfigureCall(h, false, header, job);
    PayloadAndRelease(h, job, was);
  }

  /** The common beginning of a call, which leaves its plan as it is. */
  method Take(h: Handle, entry: Entry, direction: Direction, input: array<Word>, inBase: nat, size: nat,
              output: array<Word>, outBase: nat, ghost dma: bool, ghost header: HeaderJob, ghost job: GcmJob,
              ghost was: Found)
    returns (status: Status)
    requires size < 0x1_0000 && (h.state == Ready ==> MayCall(h)) && Finds(h) == was
    requires Plan(h, dma, direction, EffectiveSize(h.init.dataUnit, size), input, inBase, output, outBase, header, job)
    modifies h`state, h`locked, h`errors, h`inCount, h`outCount, h`size, h`direction
    modifies h`input, h`inBase, h`output, h`outBase
    ensures status == if old(h.state) != Ready then Error else if old(h.locked) then HalBusy else Ok
    ensures h.state == Busy
    ensures status == Ok ==>
      && h.size == EffectiveSize(h.init.dataUnit, size) && (h.init.dataUnit == InBytes ==> h.size == size)
      && MayCall(h) && Finds(h) == was && Taken(h, direction, h.size, input, inBase, output, outBase)
      && Plan(h, dma, direction, h.size, input, inBase, output, outBase, header, job)
    ensures status != Ok ==> h.locked == (old(h.locked) && (status == HalBusy || !entry.Polling?))
  {
    status := Begin(h, entry, direction, input, inBase, size, output, outBase);
  }

  /** The call, its padding in terms of the work. */
  method PollingCall(h: Handle, direction: Direction, input: array<Word>, inBase: nat, size: nat,
                  output: array<Word>, outBase: nat, ghost header: HeaderJob, ghost job: GcmJob)
    returns (status: Status)
    requires size < 0x1_0000
    requires h.state == Ready ==> MayCall(h) && Powered(h, false, direction, EffectiveSize(h.init.dataUnit, size))
    requires Plan(h, false, direction, EffectiveSize(h.init.dataUnit, size), input, inBase, output, outBase, header,
                  job)
    requires outBase + |job.full.src| + |job.tail| <= output.Length
    modifies h, output
    ensures status == if old(h.state) != Ready then Error else if old(h.locked) then HalBusy else Ok
    ensures status == Ok ==>
      && GcmResult(h, job, |job.full.src| + |job.tail|, output, outBase)
      && Left(h, false, job, old(Finds(h)))
    ensures status == Ok ==>
      && h.size == EffectiveSize(h.init.dataUnit, size) && (h.init.dataUnit == InBytes ==> h.size == size)
      && h.npblb == (if direction == Encryption && job.rest != 0 then 16 - job.rest
                     else if old(h.init.configOnce && h.keyIvConfigured) then old(h.npblb) else 0)
    ensures status != Ok ==>
      && h.state == Busy && h.din == old(h.din) && h.sizesSum == old(h.sizesSum) && output[..] == old(output[..])
      && h.locked == (status == HalBusy)
  {
    ghost var was := Finds(h);
    status := Take(h, Polling, direction, input, inBase, size, output, outBase, false, header, job, was);
    if status == Ok {
      Proceed(h, direction, h.size, input, inBase, output, outBase, header, job, was);
    }
  }

  /** HAL_CRYP_Encrypt and HAL_CRYP_Decrypt with AES in GCM. */
  method GcmCrypt(h: Handle, direction: Direction, input: array<Word>, inBase: nat, size: nat,
                  output: array<Word>, outBase: nat, ghost header: HeaderJob, ghost job: GcmJob)
    returns (status: Status)
    requires size < 0x1_0000
    requires h.state == Ready ==> MayCall(h) && Powered(h, false, direction, EffectiveSize(h.init.dataUnit, size))
    requires Plan(h, false, direction, EffectiveSize(h.init.dataUnit, size), input, inBase, output, outBase, header,
                  job)
    requires outBase + |job.full.src| + |job.tail| <= output.Length
    modifies h, output
    ensures status == if old(h.state) != Ready then Error else if old(h.locked) then HalBusy else Ok
    ensures status == Ok ==>
      && GcmResult(h, job, |job.full.src| + |job.tail|, output, outBase)
      && Left(h, false, job, old(Finds(h)))
    ensures status == Ok ==>
      && h.size == EffectiveSize(h.init.dataUnit, size) && (h.init.dataUnit == InBytes ==> h.size == size)
      && h.sizesSum == (if old(h.init.configOnce && h.keyIvConfigured)
                        then (old(h.sizesSum) + h.size) % 0x1_0000_0000 else h.size)
      && h.npblb == (if direction == Encryption && h.size % 16 != 0 then 16 * ((h.size + 15) / 16) - h.size
                     else if old(h.init.configOnce && h.keyIvConfigured) then old(h.npblb) else 0)
    ensures status != Ok ==>
      && h.state == Busy && h.din == old(h.din) && h.sizesSum == old(h.sizesSum) && output[..] == old(output[..])
      && h.locked == (status == HalBusy)
  {
    status := PollingCall(h, direction, input, inBase, size, output, outBase, header, job);
    if status == Ok {
      PaddingNumber(h.size, job.full.blocks, job.rest);
    }
  }

  /** The padding in numbers. */
  lemma PaddingNumber(bytes: nat, blocks: nat, rest: nat)
    requires bytes == 16 * blocks + rest && rest < 16
    ensures rest != 0 <==> bytes % 16 != 0
    ensures rest != 0 ==> 16 - rest == 16 * ((bytes + 15) / 16) - bytes
  {
  }

  /** The DMA payload, up to the last callback. */
  method PayloadByDma(h: Handle, ghost job: GcmJob, ghost was: Found)
    requires h.init.algorithm == Gcm && PayloadNext(h, true, job, was) && h.errors == was.errors
      && h.outCplt == was.outCplt
    requires h.outBase + DmaStored(job) <= h.output.Length
    modifies h`npblb, h`enabled, h`inCount, h`outCount, h`chain, h`inFifo, h`outFifo, h`din, h.output
    modifies h`state, h`locked, h`inCplt, h`outCplt
    ensures h.npblb == if h.direction == Encryption && job.rest != 0 then 16 - job.rest else old(h.npblb)
    ensures GcmResult(h, job, DmaStored(job), h.output, h.outBase)
    ensures Left(h, true, job, was)
  {
    GcmPayloadDma(h, job);
  }

  lemma RoomForDma(job: GcmJob, outBase: nat, length: nat)
    requires job.Valid() && outBase + DmaStored(job) <= length
    ensures outBase + |job.full.src| + |job.tail| <= length
  {
    StoredAgree(job);
  }

  /** A DMA call once it is accepted, up to the last callback. */
  method ProceedByDma(h: Handle, ghost direction: Direction, ghost bytes: nat, ghost input: array<Word>,
                      ghost inBase: nat, ghost output: array<Word>, ghost outBase: nat, ghost header: HeaderJob,
                      ghost job: GcmJob, ghost was: Found)
    requires MayCall(h) && Taken(h, direction, bytes, input, inBase, output, outBase)
    requires Plan(h, true, direction, bytes, input, inBase, output, outBase, header, job)
    requires outBase + DmaStored(job) <= output.Length
    requires Finds(h) == was
    modifies h`sizesSum, h`keyIvConfigured, h`headerCount, h`messagePhase, h`gcmPhase, h`npblb, h`enabled
    modifies h`keyReg, h`loads, h`chain, h`inFifo, h`outFifo, h`din, h`inCount, h`outCount, output, h`state, h`locked
    modifies h`inCplt, h`outCplt
    ensures h.npblb == if h.direction == Encryption && job.rest != 0 then 16 - job.rest
      else (if old(h.init.configOnce && h.keyIvConfigured) then old(h.npblb) else 0)
    ensures GcmResult(h, job, DmaStored(job), output, outBase)
    ensures Left(h, true, job, was)
  {
    RoomForDma(job, outBase, output.Length);
    ConfigureCall(h, true, header, job);
    PayloadByDma(h, job, was);
  }

  /** The call, its padding in terms of the work. */
  method DmaCall(h: Handle, direction: Direction, input: array<Word>, inBase: nat, size: nat,
                     output: array<Word>, outBase: nat, ghost header: HeaderJob, ghost job: GcmJob)
    returns (status: Status)
    requires size < 0x1_0000 && (h.state == Ready ==> MayCall(h))
    requires Plan(h, true, direction, EffectiveSize(h.init.dataUnit, size), input, inBase, output, outBase, header, job)
    requires outBase + DmaStored(job) <= output.Length
    modifies h, output
    ensures status == if old(h.state) != Ready then Error else if old(h.locked) then HalBusy else Ok
    ensures status == Ok ==>
      && GcmResult(h, job, DmaStored(job), output, outBase)
      && Left(h, true, job, old(Finds(h)))
    ensures status == Ok ==>
      && h.size == EffectiveSize(h.init.dataUnit, size) && (h.init.dataUnit == InBytes ==> h.size == size)
      && h.npblb == (if direction == Encryption && job.rest != 0 then 16 - job.rest
                     else if old(h.init.configOnce && h.keyIvConfigured) then old(h.npblb) else 0)
    ensures status != Ok ==>
      && h.state == Busy && h.din == old(h.din) && h.sizesSum == old(h.sizesSum) && output[..] == old(output[..])
      && h.locked == old(h.locked)
  {
    ghost var was := Finds(h);
    status := Take(h, Dma, direction, input, inBase, size, output, outBase, true, header, job, was);
    if status == Ok {
      ProceedByDma(h, direction, h.size, input, inBase, output, outBase, header, job, was);
    }
  }

  /** HAL_CRYP_Encrypt_DMA and HAL_CRYP_Decrypt_DMA with AES in GCM, up to the last callback. */
  method GcmCryptDma(h: Handle, direction: Direction, input: array<Word>, inBase: nat, size: nat,
                     output: array<Word>, outBase: nat, ghost header: HeaderJob, ghost job: GcmJob)
    returns (status: Status)
    requires size < 0x1_0000 && (h.state == Ready ==> MayCall(h))
    requires Plan(h, true, direction, EffectiveSize(h.init.dataUnit, size), input, inBase, output, outBase, header, job)
    requires outBase + DmaStored(job) <= output.Length
    modifies h, output
    ensures status == if old(h.state) != Ready then Error else if old(h.locked) then HalBusy else Ok
    ensures status == Ok ==>
      && GcmResult(h, job, DmaStored(job), output, outBase)
      && Left(h, true, job, old(Finds(h)))
    ensures status == Ok ==>
      && h.size == EffectiveSize(h.init.dataUnit, size) && (h.init.dataUnit == InBytes ==> h.size == size)
      && h.sizesSum == (if old(h.init.configOnce && h.keyIvConfigured)
                        then (old(h.sizesSum) + h.size) % 0x1_0000_0000 else h.size)
      && h.npblb == (if direction == Encryption && h.size % 16 != 0 then 16 * ((h.size + 15) / 16) - h.size
                     else if old(h.init.configOnce && h.keyIvConfigured) then old(h.npblb) else 0)
    ensures status != Ok ==>
      && h.state == Busy && h.din == old(h.din) && h.sizesSum == old(h.sizesSum) && output[..] == old(output[..])
      && h.locked == old(h.locked)
  {
    status := DmaCall(h, direction, input, inBase, size, output, outBase, header, job);
    if status == Ok {
      PaddingNumber(h.size, job.full.blocks, job.rest);
    }
  }

  /** The words of n bytes rounded up to whole blocks. */
  function WholeBlocks(bytes: nat): nat { 4 * ((bytes + 15) / 16) }

  /** Two handles that later calls cannot tell apart, but for the enable bit. */
  ghost predicate SameState(a: Handle, b: Handle)
    reads a, b
  {
    && a.cipher == b.cipher && a.init == b.init && a.Drained() && b.Drained()
    && a.state == b.state == Ready && a.locked == b.locked == false && a.errors == b.errors
    && a.keyIvConfigured == b.keyIvConfigured && a.sizesSum == b.sizesSum
    && a.messagePhase == b.messagePhase && a.gcmPhase == b.gcmPhase && a.direction == b.direction
    && a.npblb == b.npblb && a.keyReg == b.keyReg && a.chain == b.chain && a.din == b.din && a.loads == b.loads
  }

  /**
   Mode refinement: polling and DMA from the same state, with a header both count alike, send the
   same words with the same padding, leave the same hash, and store the same payload words; DMA
   may store up to three words more.  Only the enable bit tells them apart, exactly if the call
   configures and has no payload.
   */
  method PollingAndDmaAgree(a: Handle, b: Handle, direction: Direction, size: nat, inBase: nat, outBase: nat,
                            inputA: array<Word>, outputA: array<Word>, inputB: array<Word>, outputB: array<Word>)
    returns (statusA: Status, statusB: Status)
    requires a != b && SameState(a, b) && a.enabled == b.enabled && size < 0x1_0000
    requires MayCall(a) && Powered(a, false, direction, EffectiveSize(a.init.dataUnit, size))
    requires inputA[..] == inputB[..] && outputA[..] == outputB[..]
    requires outputA != inputB && outputA != outputB && outputB != inputA
    requires (inputA == outputA || inputB == outputB) ==> outBase <= inBase
    requires HeaderBytes(a.init, true) == HeaderBytes(a.init, false)
    requires Min(Quads(HeaderBytes(a.init, false)), 0x1_0000) <= |a.init.header|
    requires inBase + Quads(EffectiveSize(a.init.dataUnit, size)) <= inputA.Length
    requires outBase + WholeBlocks(EffectiveSize(a.init.dataUnit, size)) <= outputA.Length
    modifies a, b, outputA, outputB
    ensures statusA == statusB == Ok && SameState(a, b)
    ensures a.enabled == b.enabled <==> EffectiveSize(a.init.dataUnit, size) > 0 || !old(a.NeedsConfig())
    ensures a.outCplt == old(a.outCplt)
    ensures b.outCplt == old(b.outCplt) + if EffectiveSize(a.init.dataUnit, size) >= 16 then 1 else 0
    ensures var bytes := EffectiveSize(a.init.dataUnit, size);
            AgreeFrom(outputA, outputB, old(outputA[..]), outBase, Quads(bytes), WholeBlocks(bytes))
  {
    ghost var bytes := EffectiveSize(a.init.dataUnit, size);
    ghost var header, job := PlanForBoth(a, b, direction, bytes, inputA, inputB, inBase, outputA, outputB, outBase);
    statusA, statusB := RunBoth(a, b, direction, size, inBase, outBase, inputA, outputA, inputB, outputB, header, job);
    StoresAgree(outputA, outputB, outBase, bytes, job);
  }

  /** The work is the same for both handles. */
  lemma PlanForBoth(a: Handle, b: Handle, direction: Direction, bytes: nat, inputA: array<Word>, inputB: array<Word>,
                    inBase: nat, outputA: array<Word>, outputB: array<Word>, outBase: nat)
    returns (header: HeaderJob, job: GcmJob)
    requires SameState(a, b) && HeaderBytes(a.init, true) == HeaderBytes(a.init, false)
    requires inputA[..] == inputB[..] && outputA[..] == outputB[..]
    requires (inputA == outputA || inputB == outputB) ==> outBase <= inBase
    requires Min(Quads(HeaderBytes(a.init, false)), 0x1_0000) <= |a.init.header|
    requires inBase + Quads(bytes) <= inputA.Length && outBase + WholeBlocks(bytes) <= outputA.Length
    ensures Plan(a, false, direction, bytes, inputA, inBase, outputA, outBase, header, job)
    ensures Plan(b, true, direction, bytes, inputB, inBase, outputB, outBase, header, job)
    ensures job.Valid() && bytes == job.Bytes() && job.full.out0 == outputA[..]
    ensures |job.full.src| + |job.tail| <= DmaStored(job)
      && outBase + DmaStored(job) <= outputA.Length == outputB.Length
  {
    header, job := PlanExists(a, false, direction, bytes, inputA, inBase, outputA, outBase);
    SamePlan(a, b, direction, bytes, inputA, inputB, inBase, outputA, outputB, outBase, header, job);
    StoredAgree(job);
    WordsOf(job.full.blocks, job.rest);
  }

  /** The same work in polling mode on one handle and by DMA on the other. */
  method RunBoth(a: Handle, b: Handle, direction: Direction, size: nat, inBase: nat, outBase: nat,
                 inputA: array<Word>, outputA: array<Word>, inputB: array<Word>, outputB: array<Word>,
                 ghost header: HeaderJob, ghost job: GcmJob)
    returns (statusA: Status, statusB: Status)
    requires a != b && SameState(a, b) && a.enabled == b.enabled && size < 0x1_0000
    requires MayCall(a) && Powered(a, false, direction, EffectiveSize(a.init.dataUnit, size))
    requires outputA != inputB && outputA != outputB && outputB != inputA
    requires Plan(a, false, direction, EffectiveSize(a.init.dataUnit, size), inputA, inBase, outputA, outBase, header,
                  job)
    requires Plan(b, true, direction, EffectiveSize(a.init.dataUnit, size), inputB, inBase, outputB, outBase, header,
                  job)
    requires |job.full.src| + |job.tail| <= DmaStored(job)
      && outBase + DmaStored(job) <= outputA.Length == outputB.Length
    modifies a, b, outputA, outputB
    ensures statusA == statusB == Ok && SameState(a, b)
    ensures a.enabled == b.enabled <==> EffectiveSize(a.init.dataUnit, size) > 0 || !old(a.NeedsConfig())
    ensures a.outCplt == old(a.outCplt)
    ensures b.outCplt == old(b.outCplt) + if EffectiveSize(a.init.dataUnit, size) >= 16 then 1 else 0
    ensures |job.full.src| + |job.tail| <= DmaStored(job) <= |job.Produced()|
    ensures Written(outputA, job.full.out0, outBase, job.Produced()[..|job.full.src| + |job.tail|])
    ensures Written(outputB, job.full.out0, outBase, job.Produced()[..DmaStored(job)])
  {
    statusA := GcmCrypt(a, direction, inputA, inBase, size, outputA, outBase, header, job);
    statusB := GcmCryptDma(b, direction, inputB, inBase, size, outputB, outBase, header, job);
  }

  /** Two output buffers agree on the payload words and may differ only in the rest of the last block. */
  ghost predicate AgreeFrom(outputA: array<Word>, outputB: array<Word>, out0: seq<Word>, outBase: nat, words: nat,
                            room: nat)
    reads outputA, outputB
  {
    && outputA.Length == outputB.Length == |out0| && words <= room && outBase + room <= |out0|
    && outputA[outBase..outBase + words] == outputB[outBase..outBase + words]
    && outputA[..outBase] == outputB[..outBase] == out0[..outBase]
    && outputA[outBase + words..] == out0[outBase + words..]
    && outputB[outBase + room..] == out0[outBase + room..]
  }

  lemma StoresAgree(outputA: array<Word>, outputB: array<Word>, outBase: nat, bytes: nat, job: GcmJob)
    requires job.Valid() && bytes == job.Bytes() && outBase + WholeBlocks(bytes) <= |job.full.out0|
    requires Written(outputA, job.full.out0, outBase, job.Produced()[..|job.full.src| + |job.tail|])
    requires |job.full.src| + |job.tail| <= DmaStored(job) <= |job.Produced()|
    requires Written(outputB, job.full.out0, outBase, job.Produced()[..DmaStored(job)])
    ensures AgreeFrom(outputA, outputB, job.full.out0, outBase, Quads(bytes), WholeBlocks(bytes))
  {
    WordsOf(job.full.blocks, job.rest);
    BuffersAgree(outputA, outputB, job.full.out0, outBase, job.Produced(), Quads(bytes), DmaStored(job),
                 WholeBlocks(bytes));
  }

  lemma BuffersAgree(outputA: array<Word>, outputB: array<Word>, out0: seq<Word>, base: nat, data: seq<Word>,
                     words: nat, stored: nat, room: nat)
    requires words <= stored <= |data| && stored <= room && base + room <= |out0|
    requires Written(outputA, out0, base, data[..words]) && Written(outputB, out0, base, data[..stored])
    ensures AgreeFrom(outputA, outputB, out0, base, words, room)
  {
  }

  lemma SamePlan(a: Handle, b: Handle, direction: Direction, bytes: nat, inputA: array<Word>, inputB: array<Word>,
                 inBase: nat, outputA: array<Word>, outputB: array<Word>, outBase: nat, header: HeaderJob, job: GcmJob)
    requires SameState(a, b) && HeaderBytes(a.init, true) == HeaderBytes(a.init, false)
    requires inputA[..] == inputB[..] && outputA[..] == outputB[..]
    requires inputB == outputB ==> outBase <= inBase
    requires Plan(a, false, direction, bytes, inputA, inBase, outputA, outBase, header, job)
    ensures Plan(b, true, direction, bytes, inputB, inBase, outputB, outBase, header, job)
  {
    forall j | 0 <= j < inputA.Length ensures inputA[j] == inputB[j] {
      assert inputA[..][j] == inputB[..][j];
    }
  }
}
