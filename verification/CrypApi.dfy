/** The public calls: HAL_CRYP_Encrypt and HAL_CRYP_Decrypt, and messages sent in several of them. */
module CrypApi {
  import opened Words
  import opened CrypCore
  import opened CrypHandle
  import opened CrypAes

  /** The payload size in bytes, as the 16-bit field of the handle keeps it. */
  function EffectiveSize(unit: SizeUnit, size: nat): (bytes: nat)
    requires size < 0x1_0000
    ensures bytes < 0x1_0000
  {
    if unit == InWords then size * 4 % 0x1_0000 else size
  }

  /** A payload counted in words is processed in full exactly when it has fewer than 16384 of them. */
  lemma WordSizesExact(size: nat)
    requires size < 0x1_0000
    ensures EffectiveSize(InWords, size) == 4 * size <==> size < 16384
    ensures EffectiveSize(InWords, 16384) == 0
  {
  }

  /** Bytes are taken as they are; of words, the byte size is kept in 16 bits. */
  lemma SizeNumbers(unit: SizeUnit, size: nat)
    requires size < 0x1_0000
    ensures unit == InBytes ==> EffectiveSize(unit, size) == size
    ensures unit == InWords ==>
      EffectiveSize(unit, size) < 0x1_0000 && 4 * size - EffectiveSize(unit, size) in {0, 0x1_0000, 0x2_0000, 0x3_0000}
  {
  }

  /** The core of the call about to be made. */
  function CallCore(h: Handle, direction: Direction): Core
    reads h`keyIvConfigured, h`gcmPhase, h`npblb, h`keyReg
  {
    Core(h.cipher, Mode(h.init.algorithm, direction, h.gcmPhase, h.npblb), if h.NeedsConfig() then h.init.key
      else h.keyReg)
  }

  /** The polling entry points unlock a busy handle they refuse, the interrupt and DMA ones do not. */
  datatype Entry = Polling | Interrupt | Dma

  /** The common beginning of the calls: a handle that is busy, or locked, is refused. */
  method Begin(h: Handle, entry: Entry, direction: Direction, input: array<Word>, inBase: nat, size: nat,
               output: array<Word>, outBase: nat)
    returns (status: Status)
    requires size < 0x1_0000
    modifies h`state, h`locked, h`errors, h`inCount, h`outCount, h`size, h`direction
    modifies h`input, h`inBase, h`output, h`outBase
    ensures status == if old(h.state) != Ready then Error else if old(h.locked) then HalBusy else Ok
    ensures h.state == Busy
    ensures status == Ok ==>
      && h.locked && h.errors == old(h.errors) && h.inCount == h.outCount == 0
      && h.size == EffectiveSize(h.init.dataUnit, size) && h.direction == direction
      && h.input == input && h.inBase == inBase && h.output == output && h.outBase == outBase
    ensures status == Ok ==>
      && (h.init.dataUnit == InBytes ==> h.size == size)
      && (h.init.dataUnit == InWords ==> h.size < 0x1_0000 && 4 * size - h.size in {0, 0x1_0000, 0x2_0000, 0x3_0000})
    ensures status != Ok ==>
      && h.locked == (old(h.locked) && (status == HalBusy || !entry.Polling?))
      && h.errors == old(h.errors) + (if status == Error then {BusyError} else {})
      && h.size == old(h.size) && h.direction == old(h.direction) && h.inCount == old(h.inCount)
    ensures h.outCplt == old(h.outCplt)
  {
    if h.state == Ready {
      h.state := Busy;
      if h.locked {
        return HalBusy;
      }
      h.locked := true;
      h.inCount, h.outCount := 0, 0;
      h.input, h.inBase, h.output, h.outBase := input, inBase, output, outBase;
      SizeNumbers(h.init.dataUnit, size);
      h.size := EffectiveSize(h.init.dataUnit, size);
      h.direction := direction;
      return Ok;
    } else {
      if entry.Polling? {
        h.locked := false;
      }
      h.errors := h.errors + {BusyError};
      return Error;
    }
  }

  /** What an AES call leaves behind: the message src of `bytes` bytes went through core from chain. */
  ghost predicate AesResult(h: Handle, bytes: nat, core: Core, chain: Chain, src: seq<Word>, din0: seq<Word>,
                            output: array<Word>, outBase: nat, out0: seq<Word>)
    requires |src| == 4 * Blocks(bytes)
    reads h, output
  {
    && h.state == Ready && !h.locked && h.Drained() && h.Engine() == core && h.din == din0 + src
    && h.chain == ChainAfter(core, chain, src, Blocks(bytes))
    && Written(output, out0, outBase, Output(core, chain, src, Blocks(bytes))[..bytes / 4])
  }

  /** The job of a call whose buffers fit. */
  lemma JobFor(h: Handle) returns (job: Job)
    requires BuffersFit(h)
    ensures job.Valid() && Describes(h, job) && job.blocks == Blocks(h.size)
    ensures job.src == h.input[h.inBase..h.inBase + 4 * Blocks(h.size)]
    ensures job.result == Output(job.core, job.chain, job.src, job.blocks)
  {
    var src := h.input[h.inBase..h.inBase + 4 * Blocks(h.size)];
    job := MakeJob(h.StartEngine(), h.StartChain(), src, h.size / 4, h.din, h.output[..]);
    assert job.words <= 4 * job.blocks < job.words + 4;
  }

  /** The words the current call reads. */
  ghost function Payload(h: Handle): (src: seq<Word>)
    requires BuffersFit(h)
    reads h, h.input
    ensures |src| == 4 * Blocks(h.size)
  {
    h.input[h.inBase..h.inBase + 4 * Blocks(h.size)]
  }

  /** The AES branch of the call. */
  method AesBranch(h: Handle)
    requires h.init.algorithm == Ecb || h.init.algorithm == Cbc || h.init.algorithm == Ctr
    requires h.Drained() && h.inCount == h.outCount == 0 && BuffersFit(h)
    modifies h`state, h`locked, h`keyIvConfigured, h`messagePhase, h`enabled, h`keyReg, h`loads
    modifies h`inCount, h`outCount, h`chain, h`inFifo, h`outFifo, h`din, h.output
    ensures h.keyIvConfigured == (h.init.configOnce || old(h.keyIvConfigured))
    ensures h.loads == old(h.loads + h.StartLoads())
    ensures AesResult(h, h.size, old(h.StartEngine()), old(h.StartChain()), old(Payload(h)), old(h.din),
                      h.output, h.outBase, old(h.output[..]))
  {
    ghost var job := JobFor(h);
    ghost var core, chain, din0, out0 := h.StartEngine(), h.StartChain(), h.din, h.output[..];
    ghost var src := Payload(h);
    AesProcess(h, job);
    h.locked := false;
    ResultOf(h, job, core, chain, src, din0, out0);
  }

  lemma ResultOf(h: Handle, job: Job, core: Core, chain: Chain, src: seq<Word>, din0: seq<Word>, out0: seq<Word>)
    requires job.core == core && job.chain == chain && job.src == src && job.din0 == din0 && job.out0 == out0
    requires Transfer(h, job, job.blocks, job.blocks, job.blocks) && job.words == h.size / 4
      && job.blocks == Blocks(h.size)
    requires h.state == Ready && !h.locked && job.result == Output(job.core, job.chain, job.src, job.blocks)
    ensures AesResult(h, h.size, core, chain, src, din0, h.output, h.outBase, out0)
  {
    TransferComplete(h, job);
  }

  /** The call in terms of the size the handle keeps. */
  method AesCall(h: Handle, direction: Direction, input: array<Word>, inBase: nat, size: nat, output: array<Word>,
                 outBase: nat)
    returns (status: Status)
    requires h.init.algorithm == Ecb || h.init.algorithm == Cbc || h.init.algorithm == Ctr
    requires size < 0x1_0000
    requires h.state == Ready ==> h.Drained()
    requires inBase + 4 * Blocks(EffectiveSize(h.init.dataUnit, size)) <= input.Length
    requires outBase + EffectiveSize(h.init.dataUnit, size) / 4 <= output.Length
    requires input == output ==> outBase <= inBase
    modifies h, output
    ensures status == if old(h.state) != Ready then Error else if old(h.locked) then HalBusy else Ok
    ensures status == Ok ==>
      && h.errors == old(h.errors) && h.keyIvConfigured == (h.init.configOnce || old(h.keyIvConfigured))
      && h.loads == old(h.loads + h.StartLoads())
      && var bytes := EffectiveSize(h.init.dataUnit, size);
         AesResult(h, bytes, old(CallCore(h, direction)), old(h.StartChain()),
                   old(input[inBase..inBase + 4 * Blocks(EffectiveSize(h.init.dataUnit, size))]), old(h.din),
                   output, outBase, old(output[..]))
    ensures status != Ok ==>
      h.state == Busy && output[..] == old(output[..]) && h.loads == old(h.loads) && h.din == old(h.din)
  {
    status := Begin(h, Polling, direction, input, inBase, size, output, outBase);
    if status == Ok {
      ghost var src := h.input[h.inBase..h.inBase + 4 * Blocks(h.size)];
      assert h.StartEngine() == old(CallCore(h, direction)) && h.StartChain() == old(h.StartChain());
      assert src == old(input[inBase..inBase + 4 * Blocks(EffectiveSize(h.init.dataUnit, size))]);
      AesBranch(h);
    }
  }

  /**
   HAL_CRYP_Encrypt and HAL_CRYP_Decrypt with AES in ECB, CBC or CTR; the core of a decryption is the
   one its prepared key gives.
   */
  method AesCrypt(h: Handle, direction: Direction, input: array<Word>, inBase: nat, size: nat, output: array<Word>,
                  outBase: nat)
    returns (status: Status)
    requires h.init.algorithm == Ecb || h.init.algorithm == Cbc || h.init.algorithm == Ctr
    requires size < 0x1_0000
    requires h.state == Ready ==> h.Drained()
    requires inBase + 4 * Blocks(EffectiveSize(h.init.dataUnit, size)) <= input.Length
    requires outBase + EffectiveSize(h.init.dataUnit, size) / 4 <= output.Length
    requires input == output ==> outBase <= inBase
    modifies h, output
    ensures status == if old(h.state) != Ready then Error else if old(h.locked) then HalBusy else Ok
    ensures status == Ok ==>
      && h.errors == old(h.errors) && h.keyIvConfigured == (h.init.configOnce || old(h.keyIvConfigured))
      && var again := old(h.init.configOnce && h.keyIvConfigured);
         var core := Core(h.cipher, Mode(h.init.algorithm, direction, old(h.gcmPhase), old(h.npblb)),
                          if again then old(h.keyReg) else h.init.key);
         var chain := if again || h.init.algorithm == Ecb then old(h.chain) else h.init.iv;
         var bytes := EffectiveSize(h.init.dataUnit, size);
         && (h.init.dataUnit == InBytes ==> bytes == size)
         && (h.init.dataUnit == InWords ==> bytes < 0x1_0000 && 4 * size - bytes in {0, 0x1_0000, 0x2_0000, 0x3_0000})
         && h.loads == old(h.loads) + (if again then [] else if h.init.algorithm == Ecb then [KeyLoad(h.init.key)]
                                       else [KeyLoad(h.init.key), VectorLoad(h.init.iv)])
         && AesResult(h, bytes, core, chain,
                      old(input[inBase..inBase + 4 * Blocks(EffectiveSize(h.init.dataUnit, size))]), old(h.din),
                      output, outBase, old(output[..]))
    ensures status != Ok ==>
      h.state == Busy && output[..] == old(output[..]) && h.loads == old(h.loads) && h.din == old(h.din)
  {
    SizeNumbers(h.init.dataUnit, size);
    status := AesCall(h, direction, input, inBase, size, output, outBase);
  }
}
