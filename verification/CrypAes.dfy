/** Polling AES (ECB, CBC, CTR): CRYP_AES_ProcessData and CRYP_AES_Encrypt. */
module CrypAes {
  import opened Words
  import opened CrypCore
  import opened CrypHandle

  /**
   One payload: who processes it and from which chaining state, its words, the words it must
   give, and the output buffer before.
   */
  datatype Job = Job(core: Core, chain: Chain, src: seq<Word>, blocks: nat, words: nat, result: seq<Word>,
                     din0: seq<Word>, out0: seq<Word>) {
    function Chain(k: nat): Chain
      requires 4 * k <= |src|
    {
      ChainAfter(core, chain, src, k)
    }

    ghost predicate Right(k: nat)
      requires 4 * k + 4 <= |src| == |result|
    {
      result[4 * k..4 * k + 4] == core.Out(Chain(k), BlockAt(src, k)).Words()
    }

    ghost predicate Valid() {
      && |src| == |result| == 4 * blocks
      && (forall k: nat | k < blocks :: Right(k))
    }

    /** A valid job asks for exactly the core's output. */
    lemma {:induction false} ValidMeansOutput(k: nat)
      requires Valid() && k <= blocks
      ensures result[..4 * k] == Output(core, chain, src, k)
    {
      if k > 0 {
        ValidMeansOutput(k - 1);
        assert Right(k - 1);
        Join(result, 0, 4 * (k - 1), 4 * k);
      }
    }
  }

  ghost function MakeJob(core: Core, chain: Chain, src: seq<Word>, words: nat, din0: seq<Word>,
                         out0: seq<Word>): (job: Job)
    requires |src| % 4 == 0
    ensures job.Valid() && job.core == core && job.chain == chain && job.src == src && job.words == words
    ensures job.blocks == |src| / 4 && job.din0 == din0 && job.out0 == out0
    ensures job.result == Output(core, chain, src, |src| / 4)
  {
    var job := Job(core, chain, src, |src| / 4, words, Output(core, chain, src, |src| / 4), din0, out0);
    assert job.Valid() by {
      forall k: nat | k < job.blocks ensures job.Right(k) {
        OutputPrefix(core, chain, src, k + 1, |src| / 4);
        assert job.result[4 * k..4 * k + 4] == job.result[..4 * (k + 1)][4 * k..];
      }
    }
    job
  }

  /**
   Where a transfer stands: i blocks of the message are written to the core, p processed
   and q read back; the first outCount words of the result are in memory, and nothing else
   in the output buffer has changed.
   */
  ghost predicate Transfer(h: Handle, job: Job, i: nat, p: nat, q: nat)
    reads h`size, h`input, h`inBase, h`inCount, h`output, h`outBase, h`outCount
    reads h`direction, h`gcmPhase, h`npblb, h`keyReg, h`chain, h`inFifo, h`outFifo, h`din
    reads h.input, h.output
  {
    && q <= p <= i <= job.blocks && |job.src| == |job.result| == 4 * job.blocks
    && h.Engine() == job.core && h.size / 4 == job.words
    && h.inCount == 4 * i && h.outCount == Min(4 * q, job.words)
    && h.inFifo == job.src[4 * p..4 * i] && h.din == job.din0 + job.src[..4 * i]
    && h.chain == job.Chain(p)
    && h.outFifo == job.result[4 * q..4 * p]
    && h.outBase + job.words <= h.output.Length
    && (h.input == h.output ==> h.outBase <= h.inBase)
    && HoldsFrom(h.input, h.inBase, job.src, 4 * i)
    && Written(h.output, job.out0, h.outBase, job.result[..h.outCount])
  }

  /** The buffer has data at base, from the word `first` of it on. */
  ghost predicate HoldsFrom(buffer: array<Word>, base: nat, data: seq<Word>, first: nat)
    reads buffer
  {
    base + |data| <= buffer.Length && forall j | base + first <= j < base + |data| :: buffer[j] == data[j - base]
  }

  /** The buffer has data at a position. */
  ghost predicate Holds(buffer: array<Word>, at: nat, data: seq<Word>)
    reads buffer
  {
    at + |data| <= buffer.Length && forall j | at <= j < at + |data| :: buffer[j] == data[j - at]
  }

  /** A write that stays before position `at`, or in another buffer, leaves what the input has there. */
  lemma StillHolds(input: array<Word>, input0: seq<Word>, output: array<Word>, out0: seq<Word>, base: nat,
                   written: seq<Word>, at: nat, data: seq<Word>)
    requires |input0| == input.Length && at + |data| <= |input0|
    requires forall j | at <= j < at + |data| :: input0[j] == data[j - at]
    requires Written(output, out0, base, written)
    requires if input == output then out0 == input0 && base + |written| <= at else input[..] == input0
    ensures Holds(input, at, data)
  {
    forall j | at <= j < at + |data| ensures input[j] == data[j - at] {
      assert input != output ==> input[..][j] == input0[j];
    }
  }

  /** Four words from the input buffer to DIN. */
  method FeedBlock(h: Handle, ghost block: seq<Word>)
    requires |h.inFifo| + 4 <= FIFO_DEPTH
    requires |block| == 4 && Holds(h.input, h.inBase + h.inCount, block)
    modifies h`inCount, h`inFifo, h`din
    ensures h.inCount == old(h.inCount) + 4
    ensures h.inFifo == old(h.inFifo) + block && h.din == old(h.din) + block
  {
    h.WriteDin(h.input[h.inBase + h.inCount]);
    h.inCount := h.inCount + 1;
    h.WriteDin(h.input[h.inBase + h.inCount]);
    h.inCount := h.inCount + 1;
    h.WriteDin(h.input[h.inBase + h.inCount]);
    h.inCount := h.inCount + 1;
    h.WriteDin(h.input[h.inBase + h.inCount]);
    h.inCount := h.inCount + 1;
  }

  /** Four words from DOUT, of which only those the message still needs are stored. */
  method DrainBlock(h: Handle)
    requires |h.outFifo| >= 4 && h.outCount < h.size / 4
    requires h.outBase + h.size / 4 <= h.output.Length
    modifies h`outCount, h`outFifo, h.output
    ensures h.outFifo == old(h.outFifo)[4..]
    ensures h.outCount == Min(old(h.outCount) + 4, h.size / 4)
    ensures forall j | 0 <= j < h.output.Length ::
      h.output[j] == if h.outBase + old(h.outCount) <= j < h.outBase + h.outCount
                     then old(h.outFifo)[j - h.outBase - old(h.outCount)] else old(h.output[j])
  {
    var temp: seq<Word> := [];
    for i := 0 to 4
      modifies h`outFifo
      invariant temp == old(h.outFifo)[..i] && h.outFifo == old(h.outFifo)[i..]
    {
      var w := h.ReadDout();
      temp := temp + [w];
    }
    var i := 0;
    while h.outCount < h.size / 4 && i < 4
      modifies h`outCount, h.output
      invariant 0 <= i <= 4 && h.outCount == old(h.outCount) + i <= h.size / 4
      invariant forall j | 0 <= j < h.output.Length ::
        h.output[j] == if h.outBase + old(h.outCount) <= j < h.outBase + h.outCount
                       then temp[j - h.outBase - old(h.outCount)] else old(h.output[j])
    {
      h.output[h.outBase + h.outCount] := temp[i];
      h.outCount := h.outCount + 1;
      i := i + 1;
    }
  }

  // Each of the three moves advances one of the three counters of a transfer.

  method Feed(h: Handle, ghost job: Job, ghost i: nat, ghost p: nat, ghost q: nat)
    requires Transfer(h, job, i, p, q)
    requires i < job.blocks && |h.inFifo| + 4 <= FIFO_DEPTH
    modifies h`inCount, h`inFifo, h`din
    ensures Transfer(h, job, i + 1, p, q)
  {
    FeedFacts(job, i, p, h.inFifo, h.din);
    FeedBlock(h, job.src[4 * i..4 * i + 4]);
  }

  lemma FeedFacts(job: Job, i: nat, p: nat, fifo: seq<Word>, din: seq<Word>)
    requires p <= i < job.blocks && |job.src| == 4 * job.blocks
    requires fifo == job.src[4 * p..4 * i] && din == job.din0 + job.src[..4 * i]
    ensures fifo + job.src[4 * i..4 * i + 4] == job.src[4 * p..4 * (i + 1)]
    ensures din + job.src[4 * i..4 * i + 4] == job.din0 + job.src[..4 * (i + 1)]
  {
  }

  method Step(h: Handle, ghost job: Job, ghost i: nat, ghost p: nat, ghost q: nat)
    requires job.Valid() && Transfer(h, job, i, p, q)
    requires h.CanStep() && !h.AbsorbsOnly()
    modifies h`chain, h`inFifo, h`outFifo
    ensures p < i && Transfer(h, job, i, p + 1, q)
  {
    assert |h.inFifo| == 4 * i - 4 * p;
    StepFacts(job, i, p, q, h.inFifo, h.outFifo);
    h.CoreStep();
  }

  lemma StepFacts(job: Job, i: nat, p: nat, q: nat, fifo: seq<Word>, out: seq<Word>)
    requires job.Valid() && q <= p < i <= job.blocks
    requires fifo == job.src[4 * p..4 * i] && out == job.result[4 * q..4 * p]
    ensures BlockAt(fifo, 0) == BlockAt(job.src, p) && fifo[4..] == job.src[4 * (p + 1)..4 * i]
    ensures job.core.Next(job.Chain(p), BlockAt(job.src, p)) == job.Chain(p + 1)
    ensures out + job.core.Out(job.Chain(p), BlockAt(job.src, p)).Words() == job.result[4 * q..4 * (p + 1)]
  {
    assert job.Right(p);
    Join(job.result, 4 * q, 4 * p, 4 * p + 4);
  }

  method Drain(h: Handle, ghost job: Job, ghost i: nat, ghost p: nat, ghost q: nat)
    requires Transfer(h, job, i, p, q)
    requires h.outFifo != [] && h.outCount < job.words
    modifies h`outCount, h`outFifo, h.output
    ensures q < p && Transfer(h, job, i, p, q + 1)
  {
    Join(job.result, 4 * q, 4 * q + 4, 4 * p);
    assert h.outCount == 4 * q && |h.outFifo| == 4 * p - 4 * q;
    DrainBlock(h);
    assert Written(h.output, job.out0, h.outBase, job.result[..h.outCount]);
    assert h.outFifo == job.result[4 * (q + 1)..4 * p];
  }

  /** CRYP_AES_ProcessData: one block in, one block out. */
  method ProcessData(h: Handle, ghost job: Job, ghost k: nat)
    requires h.enabled && !h.AbsorbsOnly()
    requires k < job.blocks && 4 * k < job.words
    requires job.Valid() && Transfer(h, job, k, k, k)
    modifies h`inCount, h`outCount, h`chain, h`inFifo, h`outFifo, h`din, h.output
    ensures Transfer(h, job, k + 1, k + 1, k + 1)
  {
    var incount := h.inCount;
    assert h.inFifo == [] && h.outFifo == [];
    if |h.inFifo| < FIFO_DEPTH && incount < h.size / 4 {
      Feed(h, job, k, k, k);
    }
    Step(h, job, k + 1, k, k);  // until OFNE is raised
    assert |h.outFifo| == 4;
    var outcount := h.outCount;
    if h.outFifo != [] && outcount < h.size / 4 {
      Drain(h, job, k + 1, k + 1, k);
    }
  }

  /** The blocks a payload of so many bytes needs; the last may read past its end. */
  function Blocks(size: nat): nat { Quads(size / 4) }

  /** The buffers of the current call are large enough, and do not overlap destructively. */
  ghost predicate BuffersFit(h: Handle)
    reads h
  {
    && h.inBase + 4 * Blocks(h.size) <= h.input.Length
    && h.outBase + h.size / 4 <= h.output.Length
    && (h.input == h.output ==> h.outBase <= h.inBase)
  }

  /** The job the next call of the driver has. */
  ghost predicate Describes(h: Handle, job: Job)
    requires BuffersFit(h)
    reads h, h.input, h.output
  {
    && job.core == h.StartEngine() && job.chain == h.StartChain()
    && job.words == h.size / 4 && job.words <= 4 * job.blocks < job.words + 4
    && h.inBase + |job.src| <= h.input.Length && job.src == h.input[h.inBase..h.inBase + |job.src|]
    && job.din0 == h.din && job.out0 == h.output[..]
  }

  /** The key and vector set-up every AES entry point starts with. */
  method Configure(h: Handle)
    modifies h`keyIvConfigured, h`keyReg, h`chain, h`loads
    ensures h.keyIvConfigured == (h.init.configOnce || old(h.keyIvConfigured))
    ensures h.Engine() == old(h.StartEngine()) && h.chain == old(h.StartChain())
    ensures h.loads == old(h.loads + h.StartLoads())
  {
    var doKeyIvConfig := true;
    if h.init.configOnce {
      if h.keyIvConfigured {
        doKeyIvConfig := false;
      } else {
        h.keyIvConfigured := true;
      }
    }
    if doKeyIvConfig {
      h.SetKey();
      if h.init.algorithm != Ecb {
        h.SetInitVector();
      }
    }
  }

  /** The polling loop over the first `words` words of the payload, in `blocks` blocks. */
  method ProcessWords(h: Handle, words: nat, ghost job: Job, ghost blocks: nat)
    requires words <= job.words && (words == job.words || words == 4 * blocks)
    requires words <= 4 * blocks < words + 4 && blocks <= job.blocks
    requires (h.enabled || blocks == 0) && !h.AbsorbsOnly()
    requires job.Valid() && Transfer(h, job, 0, 0, 0)
    modifies h`inCount, h`outCount, h`chain, h`inFifo, h`outFifo, h`din, h.output
    ensures Transfer(h, job, blocks, blocks, blocks)
  {
    var outcount := h.outCount;
    ghost var k := 0;
    while h.inCount < words && outcount < words
      modifies h`inCount, h`outCount, h`chain, h`inFifo, h`outFifo, h`din, h.output
      invariant outcount == h.outCount && k <= blocks
      invariant Transfer(h, job, k, k, k)
      decreases blocks - k
    {
      ProcessData(h, job, k);
      outcount := h.outCount;
      k := k + 1;
    }
  }

  /** Key and vector in place, the transfer is ready to begin. */
  method Prepare(h: Handle, ghost job: Job)
    requires h.Drained() && h.inCount == h.outCount == 0 && BuffersFit(h)
    requires job.Valid() && Describes(h, job)
    modifies h`keyIvConfigured, h`messagePhase, h`keyReg, h`chain, h`loads
    ensures h.messagePhase == Process && h.keyIvConfigured == (h.init.configOnce || old(h.keyIvConfigured))
    ensures h.loads == old(h.loads + h.StartLoads())
    ensures Transfer(h, job, 0, 0, 0)
  {
    Configure(h);
    h.messagePhase := Process;
  }

  method ProcessPayload(h: Handle, ghost job: Job)
    requires job.words <= 4 * job.blocks < job.words + 4 && !h.AbsorbsOnly()
    requires job.Valid() && Transfer(h, job, 0, 0, 0)
    modifies h`state, h`enabled
    modifies h`inCount, h`outCount, h`chain, h`inFifo, h`outFifo, h`din, h.output
    ensures h.state == Ready && !h.enabled && Transfer(h, job, job.blocks, job.blocks, job.blocks)
  {
    h.Enable();
    ProcessWords(h, h.size / 4, job, job.blocks);
    h.Disable();
    h.state := Ready;
  }

  /** CRYP_AES_Encrypt and CRYP_AES_Decrypt. */
  method AesProcess(h: Handle, ghost job: Job)
    requires h.init.algorithm == Ecb || h.init.algorithm == Cbc || h.init.algorithm == Ctr
    requires h.Drained() && h.inCount == h.outCount == 0 && BuffersFit(h)
    requires job.Valid() && Describes(h, job)
    modifies h`state, h`keyIvConfigured, h`messagePhase, h`enabled, h`keyReg, h`loads
    modifies h`inCount, h`outCount, h`chain, h`inFifo, h`outFifo, h`din, h.output
    ensures h.state == Ready && !h.enabled && h.messagePhase == Process
    ensures Transfer(h, job, job.blocks, job.blocks, job.blocks)
    ensures h.keyIvConfigured == (h.init.configOnce || old(h.keyIvConfigured))
    ensures h.loads == old(h.loads + h.StartLoads())
  {
    Prepare(h, job);
    ProcessPayload(h, job);
  }

  /** A transfer with all blocks written, processed and read back is complete. */
  lemma TransferComplete(h: Handle, job: Job)
    requires Transfer(h, job, job.blocks, job.blocks, job.blocks) && job.words <= 4 * job.blocks
    ensures h.Drained() && h.chain == job.Chain(job.blocks) && h.din == job.din0 + job.src
    ensures Written(h.output, job.out0, h.outBase, job.result[..job.words])
  {
    assert job.src[..|job.src|] == job.src;
  }
}
