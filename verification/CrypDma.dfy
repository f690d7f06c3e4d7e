/** AES-GCM by DMA: the bulk transfer, its completion callback, and short payloads. */
module CrypDma {
  import opened Words
  import opened CrypCore
  import opened CrypHandle
  import opened CrypAes
  import opened CrypGcm

  /** k blocks have gone through; the handle's own counters are not involved. */
  ghost predicate Streamed(h: Handle, job: Job, k: nat)
    reads h`input, h`inBase, h`output, h`outBase
    reads h`direction, h`gcmPhase, h`npblb, h`keyReg, h`chain, h`inFifo, h`outFifo, h`din
    reads h.input, h.output
  {
    && job.Valid() && k <= job.blocks && h.Engine() == job.core && h.Drained()
    && h.chain == job.Chain(k) && h.din == job.din0 + job.src[..4 * k]
    && HoldsFrom(h.input, h.inBase, job.src, 4 * k) && (h.input == h.output ==> h.outBase <= h.inBase)
    && Written(h.output, job.out0, h.outBase, job.result[..4 * k])
  }

  /** The input stream fills DIN with four words. */
  method DmaIn(h: Handle, k: nat, ghost block: seq<Word>)
    requires h.inFifo == [] && |block| == 4 && Holds(h.input, h.inBase + 4 * k, block)
    modifies h`inFifo, h`din
    ensures h.inFifo == block && h.din == old(h.din) + block
  {
    for i := 0 to 4
      modifies h`inFifo, h`din
      invariant h.inFifo == block[..i] && h.din == old(h.din) + h.inFifo
    {
      h.WriteDin(h.input[h.inBase + 4 * k + i]);
    }
  }

  /** The output stream empties DOUT of four words. */
  method DmaOut(h: Handle, k: nat)
    requires |h.outFifo| == 4 && h.outBase + 4 * k + 4 <= h.output.Length
    modifies h`outFifo, h.output
    ensures h.outFifo == [] && Written(h.output, old(h.output[..]), h.outBase + 4 * k, old(h.outFifo))
  {
    for i := 0 to 4
      modifies h`outFifo, h.output
      invariant h.outFifo == old(h.outFifo)[i..]
      invariant Written(h.output, old(h.output[..]), h.outBase + 4 * k, old(h.outFifo)[..i])
    {
      var w := h.ReadDout();
      h.output[h.outBase + 4 * k + i] := w;
    }
  }

  /** One block in and through the core. */
  method DmaInBlock(h: Handle, k: nat, ghost job: Job)
    requires Streamed(h, job, k) && k < job.blocks && h.enabled && !h.AbsorbsOnly()
    modifies h`chain, h`inFifo, h`outFifo, h`din
    ensures h.inFifo == [] && h.outFifo == job.result[4 * k..4 * k + 4]
    ensures h.chain == job.Chain(k + 1) && h.din == job.din0 + job.src[..4 * (k + 1)]
  {
    BlockFacts(job, k, h.din);
    DmaIn(h, k, job.src[4 * k..4 * k + 4]);
    h.CoreStep();
  }

  method DmaBlock(h: Handle, k: nat, ghost job: Job)
    requires Streamed(h, job, k) && k < job.blocks && h.enabled && !h.AbsorbsOnly()
    requires h.outBase + 4 * k + 4 <= h.output.Length
    modifies h`chain, h`inFifo, h`outFifo, h`din, h.output
    ensures Streamed(h, job, k + 1)
  {
    DmaInBlock(h, k, job);
    Extend([], job.result, 4 * k, 4 * k + 4);
    ghost var buffer1, done, block := h.output[..], job.result[..4 * k], job.result[4 * k..4 * k + 4];
    DmaOut(h, k);
    WrittenTwice(h.output, buffer1, job.out0, h.outBase, done, block);
    assert done + block == job.result[..4 * (k + 1)];
  }

  lemma BlockFacts(job: Job, k: nat, din: seq<Word>)
    requires job.Valid() && k < job.blocks && din == job.din0 + job.src[..4 * k]
    ensures din + job.src[4 * k..4 * k + 4] == job.din0 + job.src[..4 * (k + 1)]
    ensures BlockAt(job.src[4 * k..4 * k + 4], 0) == BlockAt(job.src, k)
    ensures job.core.Out(job.Chain(k), BlockAt(job.src, k)).Words() == job.result[4 * k..4 * k + 4]
    ensures job.core.Next(job.Chain(k), BlockAt(job.src, k)) == job.Chain(k + 1)
  {
    assert job.Right(k);
  }

  /** CRYP_SetDMAConfig and the transfer it starts, up to CRYP_DMAInCplt. */
  method DmaTransfer(h: Handle, words: nat, ghost job: Job)
    requires Streamed(h, job, 0) && !h.AbsorbsOnly() && words == 4 * job.blocks
    requires h.outBase + words <= h.output.Length
    modifies h`enabled, h`chain, h`inFifo, h`outFifo, h`din, h.output, h`inCplt
    ensures Streamed(h, job, job.blocks) && h.enabled && h.inCplt == old(h.inCplt) + 1
  {
    h.Enable();
    for k := 0 to words / 4
      modifies h`chain, h`inFifo, h`outFifo, h`din, h.output
      invariant Streamed(h, job, k)
    {
      DmaBlock(h, k, job);
    }
    h.inCplt := h.inCplt + 1;
  }

  /** CRYP_DMAOutCplt: it keeps all four words of the last block. */
  method DmaOutCplt(h: Handle, ghost job: GcmJob)
    requires Streamed(h, job.full, job.full.blocks) && DescribesTail(h, job)
    requires h.enabled && !h.AbsorbsOnly() && h.outBase + |job.Produced()| <= h.output.Length
    modifies h`npblb, h`enabled, h`inCount, h`outCount, h`chain, h`inFifo, h`outFifo, h`din, h.output
    modifies h`state, h`locked, h`outCplt
    ensures h.npblb == if h.direction == Encryption && job.rest != 0 then 16 - job.rest else old(h.npblb)
    ensures h.state == Ready && !h.locked && h.enabled && h.outCplt == old(h.outCplt) + 1
    ensures h.Drained() && h.Engine() == job.lastCore && h.chain == job.FinalChain()
    ensures h.din == job.full.din0 + job.Sent()
    ensures Written(h.output, job.full.out0, h.outBase, job.Produced())
  {
    PaddingIs(h.size, job.full.blocks, job.rest);
    StreamedAll(h, job);
    if h.size % 16 != 0 {
      DmaTail(h, job);
    }
    Complete(h);
  }

  method DmaTail(h: Handle, ghost job: GcmJob)
    requires Streamed(h, job.full, job.full.blocks) && DescribesTail(h, job) && job.rest != 0
    requires h.din == job.full.din0 + job.full.src && Written(h.output, job.full.out0, h.outBase, job.full.result)
    requires h.enabled && !h.AbsorbsOnly() && h.outBase + |job.Produced()| <= h.output.Length
    modifies h`npblb, h`enabled, h`inCount, h`outCount, h`chain, h`inFifo, h`outFifo, h`din, h.output
    ensures h.npblb == if h.direction == Encryption && job.rest != 0 then 16 - job.rest else old(h.npblb)
    ensures h.Drained() && h.enabled && h.Engine() == job.lastCore && h.chain == job.FinalChain()
    ensures h.din == job.full.din0 + job.Sent()
    ensures Written(h.output, job.full.out0, h.outBase, job.Produced())
  {
    PaddingIs(h.size, job.full.blocks, job.rest);
    h.inCount := h.size / 16 * 4;
    h.outCount := h.inCount;
    Tail(h, true, job);
    assert job.Produced()[..h.outCount] == job.Produced();
  }

  method Complete(h: Handle)
    modifies h`state, h`locked, h`outCplt
    ensures h.state == Ready && !h.locked && h.outCplt == old(h.outCplt) + 1
  {
    h.state := Ready;
    h.locked := false;
    h.outCplt := h.outCplt + 1;
  }

  lemma StreamedAll(h: Handle, job: GcmJob)
    requires Streamed(h, job.full, job.full.blocks) && DescribesTail(h, job)
    ensures h.din == job.full.din0 + job.full.src && Written(h.output, job.full.out0, h.outBase, job.full.result)
    ensures job.rest == 0 ==> job.Produced() == job.full.result && job.Sent() == job.full.src
  {
    assert job.full.src[..|job.full.src|] == job.full.src;
    assert job.full.result[..|job.full.result|] == job.full.result;
  }

  /** The short branch of CRYP_AESGCM_Process_DMA: less than a block, done by the processor. */
  method ShortPayload(h: Handle, ghost job: GcmJob)
    requires h.Drained() && DescribesPayload(h, job) && !h.AbsorbsOnly() && h.inCount == h.outCount == 0
    requires job.full.blocks == 0 && job.rest != 0
    requires h.outBase + |job.tail| <= h.output.Length
    modifies h`npblb, h`enabled, h`inCount, h`outCount, h`chain, h`inFifo, h`outFifo, h`din, h.output
    ensures h.npblb == if h.direction == Encryption && job.rest != 0 then 16 - job.rest else old(h.npblb)
    ensures h.Drained() && h.enabled
    ensures h.Engine() == job.lastCore && h.chain == job.FinalChain() && h.din == job.full.din0 + job.Sent()
    ensures h.outCount == |job.tail| && Written(h.output, job.full.out0, h.outBase, job.Produced()[..h.outCount])
  {
    assert BeforeTail(h, job, job.full.core);
    var npblb := 16 - h.size;
    if h.direction == Encryption {
      h.npblb := npblb;
    }
    h.Enable();
    LastBlock(h, npblb, LastWordSize(npblb), job);
  }

  /** The words a DMA call stores: whole blocks when it had any, else only the payload's. */
  function DmaStored(job: GcmJob): nat
    requires |job.tail| <= 4
  {
    if job.full.blocks == 0 then |job.tail| else |job.full.result| + if job.rest == 0 then 0 else 4
  }

  /** The bulk transfer, which must not include a partial block. */
  method DmaBlocks(h: Handle, ghost job: GcmJob)
    requires h.Drained() && DescribesPayload(h, job) && !h.AbsorbsOnly()
    requires h.outBase + 4 * job.full.blocks <= h.output.Length
    modifies h`enabled, h`chain, h`inFifo, h`outFifo, h`din, h.output, h`inCplt
    ensures Streamed(h, job.full, job.full.blocks) && DescribesTail(h, job) && h.enabled
  {
    PaddingIs(h.size, job.full.blocks, job.rest);
    var wordsize := h.size / 4;
    wordsize := wordsize - wordsize % 4;
    ghost var tailAt, input0 := h.inBase + |job.full.src|, h.input[..];
    assert Streamed(h, job.full, 0);
    DmaTransfer(h, wordsize, job.full);
    StillHolds(h.input, input0, h.output, job.full.out0, h.outBase, job.full.result[..4 * job.full.blocks], tailAt,
               job.tail);
  }

  /** The branch of at least one whole block: bulk transfer and completion callback. */
  method LongPayload(h: Handle, ghost job: GcmJob)
    requires h.Drained() && DescribesPayload(h, job) && !h.AbsorbsOnly() && job.full.blocks > 0
    requires h.outBase + DmaStored(job) <= h.output.Length
    modifies h`npblb, h`enabled, h`inCount, h`outCount, h`chain, h`inFifo, h`outFifo, h`din, h.output
    modifies h`state, h`locked, h`inCplt, h`outCplt
    ensures h.npblb == if h.direction == Encryption && job.rest != 0 then 16 - job.rest else old(h.npblb)
    ensures h.state == Ready && !h.locked && h.Drained() && h.enabled
    ensures h.Engine() == job.lastCore && h.chain == job.FinalChain() && h.din == job.full.din0 + job.Sent()
    ensures DmaStored(job) == |job.Produced()| && Written(h.output, job.full.out0, h.outBase, job.Produced())
    ensures h.outCplt == old(h.outCplt) + 1
  {
    PaddingIs(h.size, job.full.blocks, job.rest);
    DmaBlocks(h, job);
    DmaOutCplt(h, job);
  }

  /** The payload part of CRYP_AESGCM_Process_DMA, up to the last callback. */
  method GcmPayloadDma(h: Handle, ghost job: GcmJob)
    requires h.init.algorithm == Gcm && h.Drained() && h.inCount == h.outCount == 0
    requires DescribesPayload(h, job) && !h.AbsorbsOnly()
    requires h.outBase + DmaStored(job) <= h.output.Length
    modifies h`npblb, h`enabled, h`inCount, h`outCount, h`chain, h`inFifo, h`outFifo, h`din, h.output
    modifies h`state, h`locked, h`inCplt, h`outCplt
    ensures h.npblb == if h.direction == Encryption && job.rest != 0 then 16 - job.rest else old(h.npblb)
    ensures h.state == Ready && !h.locked && h.Drained()
    ensures h.Engine() == job.lastCore && h.chain == job.FinalChain() && h.din == job.full.din0 + job.Sent()
    ensures Written(h.output, job.full.out0, h.outBase, job.Produced()[..DmaStored(job)])
    ensures h.outCplt == old(h.outCplt) + if h.size >= 16 then 1 else 0
    ensures h.enabled == (old(h.enabled) || job.Bytes() > 0)
  {
    PaddingIs(h.size, job.full.blocks, job.rest);
    if h.size == 0 {
      NothingToDo(job);
      h.locked := false;
      h.state := Ready;
    } else if h.size >= 16 {
      LongPayload(h, job);
    } else {
      ShortPayload(h, job);
      h.state := Ready;
      h.locked := false;
    }
  }

  lemma NothingToDo(job: GcmJob)
    requires job.Valid() && job.full.blocks == 0 && job.rest == 0
    ensures job.Sent() == [] && job.Produced() == [] && DmaStored(job) == 0
  {
  }

  /** DMA and polling agree on every word that holds payload. */
  lemma StoredAgree(job: GcmJob)
    requires job.Valid()
    ensures |job.full.src| + |job.tail| <= DmaStored(job) <= |job.full.src| + |job.tail| + 3
    ensures DmaStored(job) == |job.full.src| + |job.tail| <==> job.full.blocks == 0 || job.rest == 0 || job.rest > 12
  {
  }
}
