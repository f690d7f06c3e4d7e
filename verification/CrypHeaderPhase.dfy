/** The GCM header phase as the polling, DMA and interrupt modes run it. */
module CrypHeaderPhase {
  import opened Words
  import opened CrypCore
  import opened CrypHandle
  import opened CrypHeader

  /**
   A header to absorb: the core and hash it starts from, its whole words and the bytes left
   over, the stream to send in so many blocks, and DIN before.
   */
  datatype HeaderJob = HeaderJob(core: Core, chain: Chain, header: seq<Word>, whole: nat, tail: nat,
                                 stream: seq<Word>, blocks: nat, din0: seq<Word>)
  {
    function Words(): nat { if tail == 0 then whole else whole + 1 }

    ghost predicate At(w: nat)
      requires w < |stream|
    {
      && (w < Words() ==> Wrap16(w) < |header|)
      && (w < whole ==> stream[w] == header[Wrap16(w)])
      && (w == whole && tail != 0 ==> 1 <= tail <= 3 && stream[w] == LowBytes(header[Wrap16(w)], tail))
      && (w >= Words() ==> stream[w] == 0)
    }

    ghost predicate Valid() {
      && |stream| == 4 * blocks && Words() <= 4 * blocks < Words() + 4
      && (forall w: nat | w < |stream| :: At(w))
    }

    function Chain(k: nat): Chain
      requires 4 * k <= |stream|
    {
      ChainAfter(core, chain, stream, k)
    }
  }

  ghost function MakeHeaderJob(core: Core, chain: Chain, header: seq<Word>, bytes: nat,
                               din0: seq<Word>): (job: HeaderJob)
    requires Min(Quads(bytes), 0x1_0000) <= |header|
    ensures job.Valid() && job.core == core && job.chain == chain && job.header == header && job.din0 == din0
    ensures job.whole == bytes / 4 && job.tail == bytes % 4 && job.stream == HeaderStream(header, bytes)
    ensures job.blocks == (bytes + 15) / 16
  {
    var job := HeaderJob(core, chain, header, bytes / 4, bytes % 4, HeaderStream(header, bytes), (bytes + 15) / 16,
                         din0);
    assert job.Valid() by {
      forall w: nat | w < |job.stream| ensures job.At(w) {
        StreamAt(header, bytes, w);
      }
    }
    job
  }

  /** w words of the stream are written and p blocks absorbed. */
  ghost predicate Filling(h: Handle, job: HeaderJob, w: nat, p: nat)
    reads h`direction, h`gcmPhase, h`npblb, h`keyReg, h`chain, h`inFifo, h`outFifo, h`din
  {
    && 4 * p <= w <= |job.stream|
    && h.AbsorbsOnly() && h.Engine() == job.core && h.init.header == job.header
    && h.inFifo == job.stream[4 * p..w] && h.outFifo == []
    && h.chain == job.Chain(p)
    && h.din == job.din0 + job.stream[..w]
  }

  method Put(h: Handle, v: Word, ghost job: HeaderJob, ghost w: nat, ghost p: nat)
    requires Filling(h, job, w, p) && w < |job.stream| && w < 4 * p + FIFO_DEPTH && v == job.stream[w]
    modifies h`inFifo, h`din
    ensures Filling(h, job, w + 1, p)
  {
    assert job.stream[4 * p..w] + [v] == job.stream[4 * p..w + 1];
    assert job.din0 + job.stream[..w] + [v] == job.din0 + job.stream[..w + 1];
    h.WriteDin(v);
  }

  /** One header word, through the 16-bit counter. */
  method PutHeaderWord(h: Handle, ghost job: HeaderJob, ghost w: nat, ghost p: nat)
    requires job.Valid() && Filling(h, job, w, p) && w < job.whole && w < 4 * p + FIFO_DEPTH
    requires h.headerCount == Wrap16(w)
    modifies h`headerCount, h`inFifo, h`din
    ensures Filling(h, job, w + 1, p) && h.headerCount == Wrap16(w + 1)
  {
    assert job.At(w);
    Wrap16Counts(w);
    Put(h, h.init.header[h.headerCount], job, w, p);
    h.headerCount := Inc16(h.headerCount);
  }

  method PutHeaderBlock(h: Handle, ghost job: HeaderJob, ghost w: nat, ghost p: nat)
    requires job.Valid() && Filling(h, job, w, p) && w + 4 <= job.whole && w <= 4 * p + 4
    requires h.headerCount == Wrap16(w)
    modifies h`headerCount, h`inFifo, h`din
    ensures Filling(h, job, w + 4, p) && h.headerCount == Wrap16(w + 4)
  {
    PutHeaderWord(h, job, w, p);
    PutHeaderWord(h, job, w + 1, p);
    PutHeaderWord(h, job, w + 2, p);
    PutHeaderWord(h, job, w + 3, p);
  }

  /** The core absorbs a block: IFEM is raised again. */
  method Absorb(h: Handle, ghost job: HeaderJob, ghost w: nat, ghost p: nat)
    requires Filling(h, job, w, p) && w >= 4 * p + 4 && h.enabled
    modifies h`chain, h`inFifo, h`outFifo
    ensures Filling(h, job, w, p + 1)
  {
    assert BlockAt(job.stream[4 * p..w], 0) == BlockAt(job.stream, p);
    assert job.stream[4 * p..w][4..] == job.stream[4 * (p + 1)..w];
    h.CoreStep();
  }

  /** All whole blocks of the header, waiting for the core after each. */
  method PutHeaderBlocks(h: Handle, limit: nat, ghost job: HeaderJob, ghost blocks: nat)
    requires job.Valid() && Filling(h, job, 0, 0) && h.headerCount == 0 && h.enabled
    requires limit == 4 * blocks <= job.whole
    modifies h`headerCount, h`chain, h`inFifo, h`outFifo, h`din
    ensures Filling(h, job, limit, blocks) && h.headerCount == Wrap16(limit)
  {
    var loopcounter := 0;
    ghost var k := 0;
    while loopcounter < limit
      modifies h`headerCount, h`chain, h`inFifo, h`outFifo, h`din
      invariant loopcounter == 4 * k && k <= blocks
      invariant Filling(h, job, loopcounter, k) && h.headerCount == Wrap16(loopcounter)
      decreases blocks - k
    {
      PutHeaderBlock(h, job, loopcounter, k);
      Absorb(h, job, loopcounter + 4, k);
      loopcounter := loopcounter + 4;
      k := k + 1;
    }
  }

  method PutHeaderWords(h: Handle, n: nat, ghost job: HeaderJob, ghost p: nat)
    requires job.Valid() && 4 * p + n <= job.whole && n <= 4
    requires Filling(h, job, 4 * p, p) && h.headerCount == Wrap16(4 * p)
    modifies h`headerCount, h`inFifo, h`din
    ensures Filling(h, job, 4 * p + n, p) && h.headerCount == Wrap16(4 * p + n)
  {
    var loopcounter := 0;
    while loopcounter < n
      modifies h`headerCount, h`inFifo, h`din
      invariant loopcounter <= n
      invariant Filling(h, job, 4 * p + loopcounter, p) && h.headerCount == Wrap16(4 * p + loopcounter)
    {
      PutHeaderWord(h, job, 4 * p + loopcounter, p);
      loopcounter := loopcounter + 1;
    }
  }

  /** The last, partial block: n whole words, then the masked one if any, then zeros. */
  method PutLastBlock(h: Handle, n: nat, tail: nat, ghost job: HeaderJob, ghost p: nat)
    requires job.Valid() && job.blocks == p + 1 && job.whole == 4 * p + n && job.tail == tail
    requires Filling(h, job, 4 * p, p) && h.headerCount == Wrap16(4 * p)
    modifies h`headerCount, h`inFifo, h`din
    ensures Filling(h, job, 4 * p + 4, p) && h.headerCount == Wrap16(job.whole)
  {
    PutHeaderWords(h, n, job, p);
    var loopcounter := n;
    if tail != 0 {
      assert job.At(4 * p + loopcounter);
      Put(h, LowBytes(h.init.header[h.headerCount], tail), job, 4 * p + loopcounter, p);
      loopcounter := loopcounter + 1;
    }
    PutZeros(h, loopcounter, job, p);
  }

  method PutZeros(h: Handle, written: nat, ghost job: HeaderJob, ghost p: nat)
    requires job.Valid() && job.blocks == p + 1 && job.Words() <= 4 * p + written <= 4 * p + 4
    requires Filling(h, job, 4 * p + written, p)
    modifies h`inFifo, h`din
    ensures Filling(h, job, 4 * p + 4, p)
  {
    var loopcounter := written;
    while loopcounter < 4
      modifies h`inFifo, h`din
      invariant written <= loopcounter <= 4
      invariant Filling(h, job, 4 * p + loopcounter, p)
    {
      assert job.At(4 * p + loopcounter);
      Put(h, 0, job, 4 * p + loopcounter, p);
      loopcounter := loopcounter + 1;
    }
  }

  /** What the header phase of the next message has to do. */
  ghost predicate Describes(h: Handle, job: HeaderJob)
    reads h
  {
    && job.Valid() && h.init.header == job.header && job.chain == h.chain && job.din0 == h.din
    && job.core == h.Engine().(mode := h.Engine().mode.(phase := HeaderPhase))
  }

  method PutHeader(h: Handle, blocks: nat, n: nat, tail: nat, ghost job: HeaderJob)
    requires job.Valid() && Filling(h, job, 0, 0) && h.headerCount == 0 && h.enabled
    requires job.whole == 4 * blocks + n && job.tail == tail && n < 4
    modifies h`headerCount, h`chain, h`inFifo, h`outFifo, h`din
    ensures Filling(h, job, |job.stream|, job.blocks) && h.headerCount == Wrap16(job.whole)
  {
    PutHeaderBlocks(h, 4 * blocks, job, blocks);
    if n != 0 || tail != 0 {
      PutLastBlock(h, n, tail, job, blocks);
      Absorb(h, job, |job.stream|, blocks);
    }
  }

  /** CRYP_GCMCCM_SetHeaderPhase: any number of bytes. */
  method SetHeaderPhase(h: Handle, ghost job: HeaderJob)
    requires h.init.algorithm == Gcm && h.headerCount == 0 && h.Drained() && Describes(h, job)
    requires var bytes := SizeInBytes(h.init.headerUnit, h.init.headerSize);
             job.whole == bytes / 4 && job.tail == bytes % 4
    modifies h`gcmPhase, h`enabled, h`headerCount, h`chain, h`inFifo, h`outFifo, h`din
    ensures h.Drained() && h.din == job.din0 + job.stream && h.chain == job.Chain(job.blocks)
    ensures h.gcmPhase == if job.Words() == 0 then old(h.gcmPhase) else HeaderPhase
    ensures h.headerCount == Wrap16(job.whole)
  {
    var bytes := SizeInBytes(h.init.headerUnit, h.init.headerSize);
    if bytes != 0 {
      h.gcmPhase := HeaderPhase;
      h.Enable();
      assert Filling(h, job, 0, 0);
      PutHeader(h, bytes / 16, bytes / 4 % 4, bytes % 4, job);
      assert job.stream[..|job.stream|] == job.stream;
    }
  }

  /** CRYP_GCMCCM_SetHeaderPhase_DMA: the same, always counting the header in words. */
  method SetHeaderPhaseDma(h: Handle, ghost job: HeaderJob)
    requires h.init.algorithm == Gcm && h.headerCount == 0 && h.Drained() && Describes(h, job)
    requires job.whole == h.init.headerSize && job.tail == 0
    modifies h`gcmPhase, h`enabled, h`headerCount, h`chain, h`inFifo, h`outFifo, h`din
    ensures h.Drained() && h.din == job.din0 + job.stream && h.chain == job.Chain(job.blocks)
    ensures h.gcmPhase == if job.Words() == 0 then old(h.gcmPhase) else HeaderPhase
    ensures h.headerCount == Wrap16(job.whole)
  {
    var size := h.init.headerSize;
    if size != 0 {
      h.gcmPhase := HeaderPhase;
      h.Enable();
      assert Filling(h, job, 0, 0);
      PutHeader(h, size / 4, size % 4, 0, job);
      assert job.stream[..|job.stream|] == job.stream;
    }
  }

  // The interrupt mode

  /** MISR in this phase: the input FIFO asks for a block. */
  predicate HeaderPending(h: Handle)
    reads h
  {
    h.inInterrupt && |h.inFifo| < 4
  }

  /** HeaderSize - CrypHeaderCount, as the unsigned subtraction computes it. */
  function Remaining(size: nat, count: nat): nat
    requires size < 0x1_0000_0000 && count < 0x1_0000_0000
  {
    if count <= size then size - count else size + 0x1_0000_0000 - count
  }

  /** The headerCount of the interrupt mode after k runs. */
  function CountAfter(size: nat, k: nat): (count: nat)
    requires size < 0x1_0000_0000
    ensures count < 0x1_0000
  {
    if k == 0 then 0
    else
      var count := CountAfter(size, k - 1);
      if count == size then count
      else if Remaining(size, count) >= 4 then Wrap16(count + 4)
      else Wrap16(count + size % 4)
  }

  /** The count goes up to the size if that fits in 16 bits, and else round and round. */
  lemma CountIs(size: nat, k: nat)
    requires size < 0x1_0000_0000
    ensures CountAfter(size, k) == if size < 0x1_0000 then Min(4 * k, size) else Wrap16(4 * k)
  {
    if size < 0x1_0000 {
      CountsUp(size, k);
    } else {
      CountsRound(size, k);
    }
  }

  lemma {:induction false} CountsUp(size: nat, k: nat)
    requires size < 0x1_0000
    ensures CountAfter(size, k) == Min(4 * k, size)
  {
    if k > 0 {
      CountsUp(size, k - 1);
      if 4 * (k - 1) < size < 4 * k {
        Rest(k - 1, size - 4 * (k - 1));
      }
    }
  }

  lemma {:induction false} CountsRound(size: nat, k: nat)
    requires 0x1_0000 <= size < 0x1_0000_0000
    ensures CountAfter(size, k) == Wrap16(4 * k)
  {
    if k > 0 {
      CountsRound(size, k - 1);
      RoundAgain(k - 1);
    }
  }

  lemma RoundAgain(k: nat)
    ensures Wrap16(4 * k) + 4 <= 0x1_0000 && Wrap16(Wrap16(4 * k) + 4) == Wrap16(4 * (k + 1))
  {
    Wrap16Counts(4 * k);
    Wrap16Counts(4 * k + 4);
    Wrap16Counts(4 * k % 0x1_0000 + 4);
  }

  lemma Rest(q: nat, r: nat)
    requires r < 4
    ensures (4 * q + r) % 4 == r
  {
  }

  /** The interrupt mode reaches the payload phase exactly when the header has fewer than 65536 words. */
  lemma HeaderEndsExact(size: nat)
    requires size < 0x1_0000_0000
    ensures (exists k: nat :: CountAfter(size, k) == size) <==> size < 0x1_0000
  {
    if size < 0x1_0000 {
      CountIs(size, Quads(size));
    }
  }

  /**
   k handler runs into the header phase.  A header of 65536 words or more is repeated block after
   block, and the stream of the job is as long as one likes.
   */
  ghost predicate ServingHeader(h: Handle, job: HeaderJob, k: nat, p: nat)
    reads h
  {
    var size := h.init.headerSize;
    && job.Valid() && job.tail == 0 && size < 0x1_0000_0000
    && job.whole == (if size < 0x1_0000 then size else 4 * job.blocks)
    && k <= job.blocks && k <= p + 1
    && Filling(h, job, 4 * k, p)
    && h.enabled && h.inInterrupt && h.headerCount == CountAfter(size, k)
  }

  /** The header is absorbed and the payload phase selected. */
  ghost predicate HeaderDone(h: Handle, job: HeaderJob)
    reads h
  {
    && job.Valid() && h.Drained() && h.din == job.din0 + job.stream && h.chain == job.Chain(job.blocks)
    && h.gcmPhase == PayloadPhase && h.npblb == 0 && h.messagePhase == Process
    && h.enabled && h.inInterrupt && h.outInterrupt && h.headerCount == h.init.headerSize
  }

  /** Where a run of the handler finds the counter, and where it leaves it. */
  lemma CountMoves(job: HeaderJob, size: nat, k: nat)
    requires job.Valid() && job.tail == 0 && size < 0x1_0000_0000 && k <= job.blocks
    requires job.whole == if size < 0x1_0000 then size else 4 * job.blocks
    ensures Remaining(size, CountAfter(size, k)) == size - CountAfter(size, k)
    ensures CountAfter(size, k) == size <==> size < 0x1_0000 && k == job.blocks
    ensures CountAfter(size, k) != size && k < job.blocks ==>
      && CountAfter(size, k) == Wrap16(4 * k)
      && if size - CountAfter(size, k) >= 4 then 4 * k + 4 <= job.whole && CountAfter(size, k + 1) == Wrap16(4 * k + 4)
         else job.blocks == k + 1 && job.whole == 4 * k + size % 4 && CountAfter(size, k + 1) == Wrap16(job.whole)
  {
    CountIs(size, k);
    CountIs(size, k + 1);
    if size >= 0x1_0000 {
      RoundAgain(k);
    } else if 4 * k < size < 4 * k + 4 {
      Rest(k, size - 4 * k);
    }
  }

  /** CRYP_GCMCCM_SetHeaderPhase_IT. */
  method HeaderIt(h: Handle, ghost job: HeaderJob, ghost k: nat, ghost p: nat)
    requires ServingHeader(h, job, k, p) && HeaderPending(h)
    requires h.init.headerSize >= 0x1_0000 ==> k < job.blocks
    modifies h`gcmPhase, h`npblb, h`messagePhase, h`inInterrupt, h`outInterrupt, h`enabled
    modifies h`headerCount, h`inFifo, h`din
    ensures Remaining(h.init.headerSize, old(h.headerCount)) == h.init.headerSize - old(h.headerCount)
    ensures if k == job.blocks then HeaderDone(h, job) else ServingHeader(h, job, k + 1, p)
  {
    assert |h.inFifo| == 4 * k - 4 * p;
    CountMoves(job, h.init.headerSize, k);
    if h.init.headerSize == h.headerCount {
      SelectPayload(h, job);
    } else if Remaining(h.init.headerSize, h.headerCount) >= 4 {
      SendWhole(h, job, k);
    } else {
      SendLast(h, job, k);
    }
  }

  /** Four more words of the header. */
  method SendWhole(h: Handle, ghost job: HeaderJob, ghost k: nat)
    requires ServingHeader(h, job, k, k) && k < job.blocks && h.init.headerSize - h.headerCount >= 4
    modifies h`headerCount, h`inFifo, h`din
    ensures ServingHeader(h, job, k + 1, k)
  {
    CountMoves(job, h.init.headerSize, k);
    PutHeaderBlock(h, job, 4 * k, k);
  }

  /** The last words and zeros. */
  method SendLast(h: Handle, ghost job: HeaderJob, ghost k: nat)
    requires ServingHeader(h, job, k, k) && k < job.blocks && h.init.headerSize - h.headerCount < 4
    modifies h`headerCount, h`inFifo, h`din
    ensures ServingHeader(h, job, k + 1, k)
  {
    CountMoves(job, h.init.headerSize, k);
    PutLastBlock(h, h.init.headerSize % 4, 0, job, k);
  }

  /** The header is through. */
  method SelectPayload(h: Handle, ghost job: HeaderJob)
    requires job.Valid() && Filling(h, job, |job.stream|, job.blocks) && h.headerCount == h.init.headerSize
    modifies h`gcmPhase, h`npblb, h`messagePhase, h`inInterrupt, h`outInterrupt, h`enabled
    ensures HeaderDone(h, job)
  {
    TakeAll(job.stream);
    h.inInterrupt := false;
    h.Disable();
    h.npblb := 0;
    h.messagePhase := Process;
    h.gcmPhase := PayloadPhase;
    h.inInterrupt, h.outInterrupt := true, true;
    h.Enable();
  }

  /**
   Any number of interrupts, the core absorbing each block before the next is asked for: a header
   of fewer than 65536 words ends after one run per block and one more, the payload phase being
   selected and the header sent being that of the word-counting polling mode; a longer one never.
   */
  method HeaderRun(h: Handle, runs: nat, ghost job: HeaderJob) returns (done: bool)
    requires ServingHeader(h, job, 0, 0) && (h.init.headerSize >= 0x1_0000 ==> runs <= job.blocks)
    modifies h`gcmPhase, h`npblb, h`messagePhase, h`inInterrupt, h`outInterrupt, h`enabled
    modifies h`headerCount, h`chain, h`inFifo, h`outFifo, h`din
    ensures done <==> h.init.headerSize < 0x1_0000 && runs > job.blocks
    ensures if done then HeaderDone(h, job) else ServingHeader(h, job, runs, runs)
  {
    done := false;
    for k := 0 to runs
      invariant done <==> k > job.blocks
      invariant if done then HeaderDone(h, job) else ServingHeader(h, job, k, k)
    {
      if !done {
        done := h.init.headerSize == h.headerCount;
        HeaderTurn(h, job, k);
      }
    }
  }

  /** One interrupt, and the block absorbed. */
  method HeaderTurn(h: Handle, ghost job: HeaderJob, ghost k: nat)
    requires ServingHeader(h, job, k, k) && (h.init.headerSize >= 0x1_0000 ==> k < job.blocks)
    modifies h`gcmPhase, h`npblb, h`messagePhase, h`inInterrupt, h`outInterrupt, h`enabled
    modifies h`headerCount, h`chain, h`inFifo, h`outFifo, h`din
    ensures old(h.headerCount) == h.init.headerSize <==> k == job.blocks
    ensures if k == job.blocks then HeaderDone(h, job) else ServingHeader(h, job, k + 1, k + 1)
  {
    CountMoves(job, h.init.headerSize, k);
    HeaderIt(h, job, k, k);
    if |h.inFifo| >= 4 {
      Absorb(h, job, 4 * (k + 1), k);
    }
  }
}
