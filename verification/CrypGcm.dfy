/** AES-GCM payloads: the last, partial block, and the polling and DMA ways around it. */
module CrypGcm {
  import opened Words
  import opened CrypCore
  import opened CrypHandle
  import opened CrypHeader
  import opened CrypHeaderPhase
  import opened CrypAes

  /**
   A payload of 16 * full.blocks + rest bytes: its whole blocks, and the words that hold the
   rest, to be completed with zeros and processed by lastCore.
   */
  datatype GcmJob = GcmJob(full: Job, rest: nat, tail: seq<Word>, lastCore: Core) {
    ghost predicate Valid() {
      full.Valid() && rest < 16 && |tail| == Quads(rest)
    }

    function Bytes(): nat { 16 * full.blocks + rest }

    /** The bytes of the last block that are not payload. */
    function Padding(): nat
      requires rest < 16
    {
      16 - rest
    }

    function Padded(): Block
      requires |tail| <= 4
    {
      BlockAt(tail + Zeros(4 - |tail|), 0)
    }

    function LastOut(): seq<Word>
      requires |full.src| == 4 * full.blocks && |tail| <= 4
    {
      lastCore.Out(full.Chain(full.blocks), Padded()).Words()
    }

    function FinalChain(): Chain
      requires |full.src| == 4 * full.blocks && |tail| <= 4
    {
      if rest == 0 then full.Chain(full.blocks) else lastCore.Next(full.Chain(full.blocks), Padded())
    }

    /** Everything the core produces, in whole blocks. */
    function Produced(): seq<Word>
      requires |full.src| == 4 * full.blocks && |tail| <= 4
    {
      full.result + if rest == 0 then [] else LastOut()
    }

    /** Everything sent: the payload words, then zeros to the end of the block. */
    function Sent(): seq<Word>
      requires |tail| <= 4
    {
      full.src + if rest == 0 then [] else tail + Zeros(4 - |tail|)
    }
  }

  /** The job of a GCM call once the header phase is over. */
  ghost predicate DescribesPayload(h: Handle, job: GcmJob)
    reads h, h.input, h.output
  {
    && job.Valid() && h.size == 16 * job.full.blocks + job.rest
    && job.full.core == h.Engine() && job.full.chain == h.chain && job.full.words == h.size / 4
    && job.lastCore == LastCore(h.Engine(), h.direction, job.rest)
    && Holds(h.input, h.inBase, job.full.src) && Holds(h.input, h.inBase + |job.full.src|, job.tail)
    && job.full.din0 == h.din && job.full.out0 == h.output[..]
    && h.outBase + |job.full.src| + |job.tail| <= h.output.Length
    && (h.input == h.output ==> h.outBase <= h.inBase)
  }

  /** The core of a last block of `rest` bytes: when encrypting, told how many bytes are padding. */
  function LastCore(core: Core, direction: Direction, rest: nat): Core
    requires rest < 16
  {
    if direction == Encryption && rest != 0 then core.(mode := core.mode.(npblb := 16 - rest)) else core
  }

  /** The whole blocks are done, the rest is still to come, and `core` is the core selected. */
  ghost predicate BeforeTail(h: Handle, job: GcmJob, core: Core)
    reads h`size, h`input, h`inBase, h`inCount, h`output, h`outBase, h`outCount
    reads h`direction, h`gcmPhase, h`npblb, h`keyReg, h`chain, h`inFifo, h`outFifo, h`din
    reads h.input, h.output
  {
    && job.Valid() && h.size == 16 * job.full.blocks + job.rest && job.rest != 0
    && h.Engine() == core && h.Drained()
    && job.lastCore == LastCore(job.full.core, h.direction, job.rest)
    && h.inCount == h.outCount == |job.full.src|
    && h.chain == job.full.Chain(job.full.blocks) && h.din == job.full.din0 + job.full.src
    && Holds(h.input, h.inBase + h.inCount, job.tail)
    && Written(h.output, job.full.out0, h.outBase, job.full.result)
  }

  /** Words valid in the last block: those of the bytes that are payload. */
  function LastWordSize(npblb: nat): (n: nat)
    requires npblb <= 16
    ensures n == Quads(16 - npblb)
  {
    if npblb % 4 == 0 then (16 - npblb) / 4 else (16 - npblb) / 4 + 1
  }

  /** The last input words, then zeros to complete the block. */
  method WriteLastBlock(h: Handle, lastwordsize: nat, ghost tail: seq<Word>)
    requires lastwordsize == |tail| <= 4 && h.inFifo == [] && Holds(h.input, h.inBase + h.inCount, tail)
    modifies h`inCount, h`inFifo, h`din
    ensures h.inCount == old(h.inCount) + lastwordsize
    ensures h.inFifo == tail + Zeros(4 - lastwordsize) && h.din == old(h.din) + h.inFifo
  {
    var index := 0;
    while index < lastwordsize
      modifies h`inCount, h`inFifo, h`din
      invariant index <= lastwordsize && h.inCount == old(h.inCount) + index
      invariant h.inFifo == tail[..index] && h.din == old(h.din) + h.inFifo
    {
      h.WriteDin(h.input[h.inBase + h.inCount]);
      h.inCount := h.inCount + 1;
      index := index + 1;
    }
    while index < 4
      modifies h`inFifo, h`din
      invariant lastwordsize <= index <= 4
      invariant h.inFifo == tail + Zeros(index - lastwordsize)
      invariant h.din == old(h.din) + h.inFifo
    {
      h.WriteDin(0);
      index := index + 1;
    }
  }

  /** The last output block, of which the first n words are stored. */
  method ReadLastBlock(h: Handle, n: nat)
    requires n <= 4 && |h.outFifo| == 4 && h.outBase + h.outCount + n <= h.output.Length
    modifies h`outCount, h`outFifo, h.output
    ensures h.outFifo == [] && h.outCount == old(h.outCount) + n
    ensures Written(h.output, old(h.output[..]), h.outBase + old(h.outCount), old(h.outFifo)[..n])
  {
    var temp: seq<Word> := [];
    for i := 0 to 4
      modifies h`outFifo
      invariant temp == old(h.outFifo)[..i] && h.outFifo == old(h.outFifo)[i..]
    {
      var w := h.ReadDout();
      temp := temp + [w];
    }
    for index := 0 to n
      modifies h`outCount, h.output
      invariant h.outCount == old(h.outCount) + index
      invariant Written(h.output, old(h.output[..]), h.outBase + old(h.outCount), temp[..index])
    {
      h.output[h.outBase + h.outCount] := temp[index];
      h.outCount := h.outCount + 1;
    }
  }

  /** NPBLB is set when encrypting only. */
  method SetPadding(h: Handle, npblb: nat, ghost job: GcmJob)
    requires BeforeTail(h, job, job.full.core) && npblb == job.Padding()
    requires h.enabled || h.direction == Encryption
    modifies h`enabled, h`npblb
    ensures BeforeTail(h, job, job.lastCore) && h.enabled
    ensures h.npblb == if h.direction == Encryption then 16 - job.rest else old(h.npblb)
  {
    if h.direction == Encryption {
      h.Disable();
      h.npblb := npblb;
      h.Enable();
    }
  }

  lemma PaddingIs(size: nat, blocks: nat, rest: nat)
    requires size == 16 * blocks + rest && rest < 16
    ensures (size / 16 + 1) * 16 - size == 16 - rest && size % 16 == rest && size / 16 == blocks
    ensures size / 4 == 4 * blocks + rest / 4 && size / 4 / 4 * 4 == 4 * blocks
  {
  }

  /** The last block, padded, through the core. */
  method FeedLastBlock(h: Handle, npblb: nat, ghost job: GcmJob)
    requires BeforeTail(h, job, job.lastCore) && h.enabled && !h.AbsorbsOnly() && npblb == job.Padding()
    modifies h`inCount, h`chain, h`inFifo, h`outFifo, h`din
    ensures h.inFifo == [] && h.outFifo == job.LastOut() && h.chain == job.FinalChain()
    ensures h.din == job.full.din0 + job.Sent()
  {
    WriteLastBlock(h, LastWordSize(npblb), job.tail);
    assert job.full.din0 + job.full.src + (job.tail + Zeros(4 - |job.tail|)) == job.full.din0 + job.Sent();
    h.CoreStep();
  }

  /** The last block in and out, `stored` of its words kept. */
  method LastBlock(h: Handle, npblb: nat, stored: nat, ghost job: GcmJob)
    requires BeforeTail(h, job, job.lastCore) && h.enabled && !h.AbsorbsOnly() && npblb == job.Padding()
    requires |job.tail| <= stored <= 4 && h.outBase + h.outCount + stored <= h.output.Length
    modifies h`inCount, h`outCount, h`chain, h`inFifo, h`outFifo, h`din, h.output
    ensures h.Drained() && h.chain == job.FinalChain() && h.din == job.full.din0 + job.Sent()
    ensures h.outCount == old(h.outCount) + stored
    ensures Written(h.output, job.full.out0, h.outBase, job.Produced()[..h.outCount])
  {
    FeedLastBlock(h, npblb, job);
    ghost var buffer1 := h.output[..];
    ReadLastBlock(h, stored);
    WrittenTwice(h.output, buffer1, job.full.out0, h.outBase, job.full.result, job.LastOut()[..stored]);
    assert job.full.result + job.LastOut()[..stored] == job.Produced()[..h.outCount];
  }

  /** The rest of the payload is where the job found it. */
  ghost predicate DescribesTail(h: Handle, job: GcmJob)
    reads h`size, h`direction, h`input, h`inBase, h.input
  {
    && job.Valid() && h.size == 16 * job.full.blocks + job.rest
    && job.lastCore == LastCore(job.full.core, h.direction, job.rest)
    && Holds(h.input, h.inBase + |job.full.src|, job.tail)
  }

  /** Padding, last block in and last block out. */
  method Tail(h: Handle, keepAll: bool, ghost job: GcmJob)
    requires BeforeTail(h, job, job.full.core) && !h.AbsorbsOnly() && (h.enabled || h.direction == Encryption)
    requires h.outBase + h.outCount + (if keepAll then 4 else |job.tail|) <= h.output.Length
    modifies h`npblb, h`enabled, h`inCount, h`outCount, h`chain, h`inFifo, h`outFifo, h`din, h.output
    ensures h.Drained() && h.enabled && h.Engine() == job.lastCore && h.chain == job.FinalChain()
    ensures h.din == job.full.din0 + job.Sent()
    ensures h.npblb == if h.direction == Encryption then 16 - job.rest else old(h.npblb)
    ensures h.outCount == old(h.outCount) + if keepAll then 4 else |job.tail|
    ensures Written(h.output, job.full.out0, h.outBase, job.Produced()[..h.outCount])
  {
    PaddingIs(h.size, job.full.blocks, job.rest);
    var npblb := (h.size / 16 + 1) * 16 - h.size;
    SetPadding(h, npblb, job);
    LastBlock(h, npblb, if keepAll then 4 else LastWordSize(npblb), job);
  }

  // Set-up

  /** The header a new message must absorb, counted as `bytes`. */
  ghost predicate DescribesHeader(h: Handle, job: HeaderJob, bytes: nat)
    reads h
  {
    && job.Valid() && job.header == h.init.header && job.whole == bytes / 4 && job.tail == bytes % 4
    && job.chain == h.init.iv && job.din0 == h.din
    && job.core == Core(h.cipher, Mode(Gcm, h.direction, HeaderPhase, h.npblb), h.init.key)
  }

  /** SizesSum after a call: accumulated in ONCE mode, restarted otherwise. */
  function NextSizesSum(h: Handle): nat
    reads h
  {
    if h.NeedsConfig() then h.size else (h.sizesSum + h.size) % 0x1_0000_0000
  }

  /** Key, vector, header phase and selection of the payload phase, if the call has to do them. */
  method GcmConfigure(h: Handle, dma: bool, ghost job: HeaderJob)
    requires h.init.algorithm == Gcm && h.Drained()
    requires h.NeedsConfig() ==> DescribesHeader(h, job,
      if dma then 4 * h.init.headerSize else SizeInBytes(h.init.headerUnit, h.init.headerSize))
    modifies h`sizesSum, h`keyIvConfigured, h`headerCount, h`messagePhase, h`gcmPhase, h`npblb, h`enabled
    modifies h`keyReg, h`loads, h`chain, h`inFifo, h`outFifo, h`din
    ensures h.Drained() && h.sizesSum == old(NextSizesSum(h))
    ensures h.keyIvConfigured == (h.init.configOnce || old(h.keyIvConfigured))
    ensures h.loads == old(h.loads + h.StartLoads())
    ensures h.npblb == if old(h.init.configOnce && h.keyIvConfigured) then old(h.npblb) else 0
    ensures if old(h.NeedsConfig()) then
              && h.Engine() == Core(h.cipher, Mode(Gcm, h.direction, PayloadPhase, 0), h.init.key)
              && h.chain == job.Chain(job.blocks) && h.din == old(h.din) + job.stream
              && h.messagePhase == Process && h.enabled == !dma && h.gcmPhase == PayloadPhase
            else
              && h.Engine() == old(h.Engine()) && h.chain == old(h.chain) && h.din == old(h.din)
              && h.messagePhase == old(h.messagePhase) && h.enabled == old(h.enabled) && h.gcmPhase == old(h.gcmPhase)
  {
    var doKeyIvConfig := true;
    if h.init.configOnce {
      if h.keyIvConfigured {
        doKeyIvConfig := false;
        h.sizesSum := (h.sizesSum + h.size) % 0x1_0000_0000;
      } else {
        h.keyIvConfigured := true;
        h.sizesSum := h.size;
      }
    } else {
      h.sizesSum := h.size;
    }
    if doKeyIvConfig {
      NewMessage(h, dma, job);
    }
  }

  method NewMessage(h: Handle, dma: bool, ghost job: HeaderJob)
    requires h.init.algorithm == Gcm && h.Drained()
    requires DescribesHeader(h, job,
      if dma then 4 * h.init.headerSize else SizeInBytes(h.init.headerUnit, h.init.headerSize))
    modifies h`headerCount, h`messagePhase, h`gcmPhase, h`npblb, h`enabled
    modifies h`keyReg, h`loads, h`chain, h`inFifo, h`outFifo, h`din
    ensures h.Drained() && h.loads == old(h.loads) + [KeyLoad(h.init.key), VectorLoad(h.init.iv)]
    ensures h.Engine() == Core(h.cipher, Mode(Gcm, h.direction, PayloadPhase, 0), h.init.key)
    ensures h.chain == job.Chain(job.blocks) && h.din == old(h.din) + job.stream
    ensures h.messagePhase == Process && h.enabled == !dma && h.gcmPhase == PayloadPhase && h.npblb == 0
  {
    h.headerCount := 0;
    h.gcmPhase := InitPhase;
    h.SetKey();
    h.SetInitVector();
    h.Enable();
    h.Disable();  // the init phase clears CRYPEN when it is over
    if dma {
      SetHeaderPhaseDma(h, job);
    } else {
      SetHeaderPhase(h, job);
    }
    h.messagePhase := Process;
    h.Disable();
    h.npblb := 0;
    h.gcmPhase := PayloadPhase;
    if !dma {
      h.Enable();
    }
  }

  // Polling

  /** The polling loop over the whole blocks. */
  method GcmBlocks(h: Handle, ghost job: GcmJob)
    requires h.init.algorithm == Gcm && h.Drained() && h.inCount == h.outCount == 0
    requires DescribesPayload(h, job) && !h.AbsorbsOnly() && (h.enabled || job.full.blocks == 0)
    modifies h`inCount, h`outCount, h`chain, h`inFifo, h`outFifo, h`din, h.output
    ensures Transfer(h, job.full, job.full.blocks, job.full.blocks, job.full.blocks)
    ensures DescribesTail(h, job)
  {
    PaddingIs(h.size, job.full.blocks, job.rest);
    var wordsize := h.size / 4;
    if h.size % 16 != 0 {
      wordsize := wordsize / 4 * 4;
    }
    BlocksBeforeTail(h, wordsize, job);
  }

  /** The blocks go through and the rest of the payload stays where it is, even if written over the input. */
  method BlocksBeforeTail(h: Handle, wordsize: nat, ghost job: GcmJob)
    requires Transfer(h, job.full, 0, 0, 0) && DescribesTail(h, job) && wordsize == 4 * job.full.blocks
    requires (h.enabled || job.full.blocks == 0) && !h.AbsorbsOnly() && job.full.out0 == h.output[..]
      && wordsize <= job.full.words
    modifies h`inCount, h`outCount, h`chain, h`inFifo, h`outFifo, h`din, h.output
    ensures Transfer(h, job.full, job.full.blocks, job.full.blocks, job.full.blocks)
    ensures DescribesTail(h, job)
  {
    ghost var tailAt, input0 := h.inBase + |job.full.src|, h.input[..];
    ProcessWords(h, wordsize, job.full, job.full.blocks);
    StillHolds(h.input, input0, h.output, job.full.out0, h.outBase, job.full.result[..h.outCount], tailAt, job.tail);
  }

  /** All whole blocks through: either the payload is done or its tail is next. */
  lemma AfterBlocks(h: Handle, job: GcmJob)
    requires Transfer(h, job.full, job.full.blocks, job.full.blocks, job.full.blocks) && DescribesTail(h, job)
    ensures h.Drained() && h.outCount == h.inCount == |job.full.src|
    ensures h.size % 16 == job.rest && (job.rest != 0 ==> BeforeTail(h, job, job.full.core))
    ensures job.rest == 0 ==>
      && h.Engine() == job.lastCore && h.chain == job.FinalChain()
      && h.din == job.full.din0 + job.Sent()
      && Written(h.output, job.full.out0, h.outBase, job.Produced()[..h.outCount])
  {
    PaddingIs(h.size, job.full.blocks, job.rest);
    assert job.full.src[..|job.full.src|] == job.full.src;
    assert job.full.result[..|job.full.result|] == job.full.result;
  }

  /**
   Whether the polling payload gets through from a core that may be off: without payload nothing is
   needed, and setting NPBLB, which encryption does for a partial block, switches the core on.
   */
  predicate Passes(enabled: bool, direction: Direction, bytes: nat) {
    enabled || bytes == 0 || (direction == Encryption && bytes < 16)
  }

  /** The payload part of CRYP_AESGCM_Process. */
  method GcmPayload(h: Handle, ghost job: GcmJob)
    requires h.init.algorithm == Gcm && h.Drained() && h.inCount == h.outCount == 0
    requires DescribesPayload(h, job) && !h.AbsorbsOnly() && Passes(h.enabled, h.direction, job.Bytes())
    modifies h`npblb, h`enabled, h`inCount, h`outCount, h`chain, h`inFifo, h`outFifo, h`din, h.output
    ensures h.Drained() && h.Engine() == job.lastCore && h.chain == job.FinalChain()
    ensures h.enabled == (old(h.enabled) || job.Bytes() > 0)
    ensures h.din == job.full.din0 + job.Sent()
    ensures h.npblb == if h.direction == Encryption && job.rest != 0 then 16 - job.rest else old(h.npblb)
    ensures h.outCount == |job.full.src| + |job.tail|
    ensures Written(h.output, job.full.out0, h.outBase, job.Produced()[..h.outCount])
  {
    GcmBlocks(h, job);
    AfterBlocks(h, job);
    if h.size % 16 != 0 {
      Tail(h, false, job);
    }
  }
}
