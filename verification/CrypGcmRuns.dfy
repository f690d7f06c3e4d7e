/** GCM messages sent in calls of any size, in any mix of polling and DMA, and their tag. */
module CrypGcmRuns {
  import opened Words
  import opened CrypCore
  import opened CrypHandle
  import opened CrypHeaderPhase
  import A = CrypAes
  import opened CrypGcm
  import opened CrypDma
  import opened CrypApi
  import opened CrypGcmApi
  import opened CrypTag
  import opened CrypGcmMessage

  /** The calls of a message: the mode and size of each, and where its input and output lie. */
  datatype Calls = Calls(dma: nat -> bool, direction: Direction, sizes: seq<Half>,
                         input: array<Word>, inAt: nat -> nat, output: array<Word>, outAt: nat -> nat)

  /** A call of so many bytes has its input, and room for its output: in whole blocks if by DMA. */
  predicate Fits(dma: bool, bytes: nat, input: array<Word>, inAt: nat, output: array<Word>, outAt: nat) {
    && inAt + Quads(bytes) <= input.Length
    && outAt + (if dma then WholeBlocks(bytes) else Quads(bytes)) <= output.Length
    && (input == output ==> outAt <= inAt)
  }

  /** Every call of a message fits, and the header is there. */
  ghost predicate AllFit(init: Config, m: Calls) {
    forall j: nat | j < |m.sizes| ::
      && Min(Quads(HeaderBytes(init, m.dma(j))), 0x1_0000) <= |init.header|
      && Fits(m.dma(j), EffectiveSize(init.dataUnit, m.sizes[j]), m.input, m.inAt(j), m.output, m.outAt(j))
  }

  lemma FitsAt(init: Config, m: Calls, j: nat)
    requires AllFit(init, m) && j < |m.sizes|
    ensures Min(Quads(HeaderBytes(init, m.dma(j))), 0x1_0000) <= |init.header|
    ensures Fits(m.dma(j), EffectiveSize(init.dataUnit, m.sizes[j]), m.input, m.inAt(j), m.output, m.outAt(j))
  {
  }

  /** Whether the core is on before call j of a new message. */
  function OnBefore(unit: SizeUnit, m: Calls, j: nat): bool
    requires 0 < j <= |m.sizes|
  {
    OnAfter(j == 1, j > 1 && OnBefore(unit, m, j - 1), m.dma(j - 1), EffectiveSize(unit, m.sizes[j - 1]))
  }

  /** It is off exactly if the message began with an empty DMA call and nothing but empty calls followed. */
  lemma {:induction false} OffExact(unit: SizeUnit, m: Calls, j: nat)
    requires 0 < j <= |m.sizes|
    ensures !OnBefore(unit, m, j) <==> m.dma(0) && forall i | 0 <= i < j :: EffectiveSize(unit, m.sizes[i]) == 0
  {
    if j > 1 {
      OffExact(unit, m, j - 1);
    }
  }

  /** Every call after the first gets through: by DMA, or from a core that is on or switched on by its padding. */
  predicate Runs(unit: SizeUnit, m: Calls) {
    forall j: nat | 0 < j < |m.sizes| ::
      m.dma(j) || Passes(OnBefore(unit, m, j), m.direction, EffectiveSize(unit, m.sizes[j]))
  }

  /** In numbers: the calls that the core, being off, cannot process are the only ones excluded. */
  lemma RunsExact(unit: SizeUnit, m: Calls)
    ensures Runs(unit, m) <==> forall j: nat | 0 < j < |m.sizes| ::
      var bytes := EffectiveSize(unit, m.sizes[j]);
      || m.dma(j) || bytes == 0 || (m.direction == Encryption && bytes < 16)
      || !(m.dma(0) && forall i | 0 <= i < j :: EffectiveSize(unit, m.sizes[i]) == 0)
  {
    forall j: nat | 0 < j < |m.sizes|
      ensures !OnBefore(unit, m, j) <==> m.dma(0) && forall i | 0 <= i < j :: EffectiveSize(unit, m.sizes[i]) == 0
    {
      OffExact(unit, m, j);
    }
  }

  /**
   The beginning of a polling call on a core that stays off: its first block is written, and
   no word to be waited for will ever come out.
   */
  method StalledCall(h: Handle, direction: Direction, input: array<Word>, inBase: nat, size: Half,
                     output: array<Word>, outBase: nat, ghost header: HeaderJob, ghost job: GcmJob)
    requires MayCall(h) && h.state == Ready && !h.locked
    requires !Powered(h, false, direction, EffectiveSize(h.init.dataUnit, size))
    requires Plan(h, false, direction, EffectiveSize(h.init.dataUnit, size), input, inBase, output, outBase, header,
                  job)
    requires outBase + |job.full.src| + |job.tail| <= output.Length
    modifies h
    ensures h.inFifo == job.Sent()[..4] && h.din == job.full.din0 + h.inFifo
    ensures h.state == Busy && !h.enabled && !h.CanStep() && h.outFifo == [] && h.outCount == 0
  {
    var status := Begin(h, Polling, direction, input, inBase, size, output, outBase);
    Stall(h, direction, EffectiveSize(h.init.dataUnit, size), input, inBase, output, outBase, header, job);
  }

  method Stall(h: Handle, ghost direction: Direction, ghost bytes: nat, ghost input: array<Word>, ghost inBase: nat,
               ghost output: array<Word>, ghost outBase: nat, ghost header: HeaderJob, ghost job: GcmJob)
    requires MayCall(h) && !Powered(h, false, direction, bytes)
      && Taken(h, direction, bytes, input, inBase, output, outBase)
    requires Plan(h, false, direction, bytes, input, inBase, output, outBase, header, job)
    requires outBase + |job.full.src| + |job.tail| <= output.Length
    modifies h`sizesSum, h`keyIvConfigured, h`headerCount, h`messagePhase, h`gcmPhase, h`npblb, h`enabled
    modifies h`keyReg, h`loads, h`chain, h`inFifo, h`outFifo, h`din, h`inCount
    ensures h.inFifo == job.Sent()[..4] && h.din == job.full.din0 + h.inFifo && !h.enabled && h.outFifo == []
  {
    ConfigureCall(h, false, header, job);
    FeedFirst(h, job);
  }

  /** The loop over whole blocks, and the last block, both begin with four words. */
  method FeedFirst(h: Handle, ghost job: GcmJob)
    requires h.Drained() && h.inCount == 0 && DescribesPayload(h, job) && job.Bytes() > 0
    modifies h`inFifo, h`din, h`inCount
    ensures h.inFifo == job.Sent()[..4] && h.din == job.full.din0 + h.inFifo
  {
    FirstBlock(job);
    if h.size >= 16 {
      A.FeedBlock(h, job.full.src[..4]);
    } else {
      WriteLastBlock(h, LastWordSize((h.size / 16 + 1) * 16 - h.size), job.tail);
    }
  }

  /** A configured handle after a tag: ready, but the core is off and in the final phase. */
  ghost predicate Tagged(h: Handle)
    reads h
  {
    && h.init.algorithm == Gcm && h.init.configOnce && h.keyIvConfigured && h.messagePhase == Final
    && h.state == Ready && !h.locked && h.Drained() && !h.enabled && h.gcmPhase == FinalPhase
  }

  /**
   Nothing configures it again: the next call sends no header and has the core of the final phase, and
   a polling one gets through exactly if it is empty or encrypts less than a block.
   */
  lemma AfterTag(h: Handle, dma: bool, direction: Direction, bytes: nat)
    requires Tagged(h)
    ensures MayCall(h) && !h.NeedsConfig() && CallCore(h, direction).mode.phase == FinalPhase
    ensures Powered(h, dma, direction, bytes) <==> dma || bytes == 0 || (direction == Encryption && bytes < 16)
  {
  }

  /** The tag of a message, and then a polling call for another one: it stalls. */
  method CallAfterTag(h: Handle, tag: array<Word>, direction: Direction, input: array<Word>, inBase: nat, size: Half,
                      output: array<Word>, outBase: nat)
    requires MayCall(h) && h.init.configOnce && h.keyIvConfigured && h.state == Ready && !h.locked
    requires h.messagePhase == Process && tag.Length >= 4
    requires Fits(false, EffectiveSize(h.init.dataUnit, size), input, inBase, output, outBase)
    requires var bytes := EffectiveSize(h.init.dataUnit, size); bytes >= 16 || (direction == Decryption && bytes > 0)
    modifies h, tag
    ensures h.state == Busy && !h.enabled && |h.inFifo| == 4 && h.outFifo == [] && !h.CanStep() && h.outCount == 0
  {
    var status := GenerateAuthTag(h, tag);
    assert Tagged(h);
    ghost var bytes := EffectiveSize(h.init.dataUnit, size);
    AfterTag(h, false, direction, bytes);
    ghost var job :=
      PayloadOf(CallCore(h, direction), h.chain, h.din, direction, bytes, input, inBase, output, outBase);
    ghost var header := HeaderJob(job.full.core, h.chain, [], 0, 0, [], 0, h.din);
    WordsOf(job.full.blocks, job.rest);
    StalledCall(h, direction, input, inBase, size, output, outBase, header, job);
    FirstBlock(job);
  }

  lemma FirstBlock(job: GcmJob)
    requires job.Valid() && job.Bytes() > 0
    ensures job.full.blocks > 0 ==> |job.full.src| >= 4 && job.Sent()[..4] == job.full.src[..4]
    ensures job.full.blocks == 0 ==>
      job.Sent() == job.Sent()[..4] == job.tail + Zeros(4 - |job.tail|) && job.full.src == []
    ensures job.full.blocks == 0 ==> |job.tail| == LastWordSize((job.Bytes() / 16 + 1) * 16 - job.Bytes())
  {
    PaddingIs(job.Bytes(), job.full.blocks, job.rest);
  }

  /** A job's payload lies at a position of the input. */
  ghost predicate Contains(input: seq<Word>, at: nat, job: GcmJob) {
    at + |job.full.src| + |job.tail| <= |input|
      && input[at..at + |job.full.src| + |job.tail|] == job.full.src + job.tail
  }

  lemma HeldThere(input: array<Word>, at: nat, job: GcmJob)
    requires A.Holds(input, at, job.full.src) && A.Holds(input, at + |job.full.src|, job.tail)
    ensures Contains(input[..], at, job)
  {
  }

  /** The work of one call, and the room it needs. */
  lemma PlanHere(h: Handle, dma: bool, direction: Direction, bytes: nat, input: array<Word>, inAt: nat,
                 output: array<Word>, outAt: nat) returns (header: HeaderJob, job: GcmJob)
    requires Min(Quads(HeaderBytes(h.init, dma)), 0x1_0000) <= |h.init.header|
    requires Fits(dma, bytes, input, inAt, output, outAt)
    ensures Plan(h, dma, direction, bytes, input, inAt, output, outAt, header, job)
    ensures job.Valid() && job.Bytes() == bytes && Contains(input[..], inAt, job)
    ensures outAt + |job.full.src| + |job.tail| <= output.Length && (dma ==> outAt + DmaStored(job) <= output.Length)
  {
    header, job := PlanExists(h, dma, direction, bytes, input, inAt, output, outAt);
    WordsOf(job.full.blocks, job.rest);
    HeldThere(input, inAt, job);
  }

  /** The words a job stores in one mode. */
  ghost function Stored(dma: bool, job: GcmJob): nat
    requires job.Valid()
  {
    if dma then DmaStored(job) else |job.full.src| + |job.tail|
  }

  /** One call in either mode, and the job it did. */
  method CallOnce(h: Handle, dma: bool, direction: Direction, size: Half,
                  input: array<Word>, inAt: nat, output: array<Word>, outAt: nat)
    returns (ghost header: HeaderJob, ghost job: GcmJob)
    requires MayCall(h) && h.init.configOnce && h.state == Ready && !h.locked
    requires Powered(h, dma, direction, EffectiveSize(h.init.dataUnit, size))
    requires Min(Quads(HeaderBytes(h.init, dma)), 0x1_0000) <= |h.init.header|
    requires Fits(dma, EffectiveSize(h.init.dataUnit, size), input, inAt, output, outAt)
    modifies h, output
    ensures old(HeaderPlan(h, dma, direction, header) && PayloadStart(h, direction, header, job.full))
    ensures Contains(old(input[..]), inAt, job)
    ensures Done(h, direction, job) && job.Bytes() == EffectiveSize(h.init.dataUnit, size)
    ensures h.enabled == OnAfter(old(h.NeedsConfig()), old(h.enabled), dma, job.Bytes())
    ensures h.sizesSum == NextSum(old(h.NeedsConfig()), old(h.sizesSum), job.Bytes())
    ensures h.messagePhase == if old(h.NeedsConfig()) then Process else old(h.messagePhase)
    ensures job.full.out0 == old(output[..]) && Stored(dma, job) <= |job.Produced()|
    ensures Written(output, job.full.out0, outAt, job.Produced()[..Stored(dma, job)])
  {
    ghost var bytes := EffectiveSize(h.init.dataUnit, size);
    header, job := PlanHere(h, dma, direction, bytes, input, inAt, output, outAt);
    if dma {
      var status := GcmCryptDma(h, direction, input, inAt, size, output, outAt, header, job);
    } else {
      var status := GcmCrypt(h, direction, input, inAt, size, output, outAt, header, job);
    }
  }

  /** Where a call leaves a configured handle: ready, with its job's core, hash and DIN words. */
  ghost predicate Done(h: Handle, direction: Direction, job: GcmJob)
    reads h
  {
    && MayCall(h) && h.state == Ready && !h.locked && h.keyIvConfigured && job.Valid()
    && h.Engine() == job.lastCore && h.chain == job.FinalChain() && h.din == job.full.din0 + job.Sent()
    && job.lastCore == LastCore(job.full.core, direction, job.rest) && job.full.core.mode.direction == direction
  }

  /** A job that begins where another one ended. */
  ghost predicate Follows(before: GcmJob, job: GcmJob) {
    && before.Valid()
    && job.full.core == before.lastCore && job.full.chain == before.FinalChain()
    && job.full.din0 == before.full.din0 + before.Sent()
  }

  /** A job on so many bytes. */
  ghost predicate Does(job: GcmJob, direction: Direction, bytes: nat) {
    job.Valid() && job.Bytes() == bytes && job.lastCore == LastCore(job.full.core, direction, job.rest)
  }

  /** The jobs of the first calls: the sizes asked for, each from where the one before ended. */
  ghost predicate Jobs(jobs: seq<GcmJob>, direction: Direction, unit: SizeUnit, sizes: seq<Half>) {
    jobs == [] || (
      var n := |jobs| - 1;
      && n < |sizes| && Jobs(jobs[..n], direction, unit, sizes)
      && Does(jobs[n], direction, EffectiveSize(unit, sizes[n]))
      && (n > 0 ==> Follows(jobs[n - 1], jobs[n])))
  }

  lemma {:induction false} JobsPadded(jobs: seq<GcmJob>, direction: Direction, unit: SizeUnit, sizes: seq<Half>)
    requires Jobs(jobs, direction, unit, sizes)
    ensures forall j: nat | j < |jobs| ::
      var job := jobs[j];
      job.lastCore.mode.npblb
      == if direction == Encryption && job.rest != 0 then 16 - job.rest else job.full.core.mode.npblb
  {
    if jobs != [] {
      JobsPadded(jobs[..|jobs| - 1], direction, unit, sizes);
    }
  }

  /** What the call of a job was given: the input as it was, or the output before the call if that is the input too. */
  ghost function Given(m: Calls, input0: seq<Word>, job: GcmJob): seq<Word> {
    if m.input == m.output then job.full.out0 else input0
  }

  /** The payloads are where the calls were pointed to. */
  ghost predicate Inputs(jobs: seq<GcmJob>, m: Calls, input0: seq<Word>) {
    jobs == [] || (
      var n := |jobs| - 1;
      Inputs(jobs[..n], m, input0) && Contains(Given(m, input0, jobs[n]), m.inAt(n), jobs[n]))
  }

  /** The buffer is buffer0 but for the words that a job stores from position `at`. */
  ghost predicate StoredAt(buffer: seq<Word>, dma: bool, job: GcmJob, at: nat) {
    && job.Valid() && |buffer| == |job.full.out0|
    && Stored(dma, job) <= |job.Produced()| && at + Stored(dma, job) <= |buffer|
    && forall p | 0 <= p < |buffer| ::
         buffer[p] == if at <= p < at + Stored(dma, job) then job.Produced()[p - at] else job.full.out0[p]
  }

  /**
   The output after some calls: each stored what its job produced where it was pointed to, and nothing else
   changed.
   */
  ghost predicate Outputs(jobs: seq<GcmJob>, m: Calls, out0: seq<Word>, buffer: seq<Word>) {
    if jobs == [] then buffer == out0
    else
      var n := |jobs| - 1;
      Outputs(jobs[..n], m, out0, jobs[n].full.out0) && StoredAt(buffer, m.dma(n), jobs[n], m.outAt(n))
  }

  /** Both, for the buffers as they are. */
  ghost predicate Moved(jobs: seq<GcmJob>, m: Calls, input0: seq<Word>, out0: seq<Word>)
    reads m.input, m.output
  {
    && (m.input != m.output ==> m.input[..] == input0)
    && Inputs(jobs, m, input0) && Outputs(jobs, m, out0, m.output[..])
  }

  /** The running sum is that of the calls so far. */
  ghost predicate SumIs(h: Handle, total: nat)
    reads h`messagePhase, h`sizesSum
  {
    h.messagePhase == Process && h.sizesSum == total % 0x1_0000_0000
  }

  /** The first call of a message. */
  method FirstCall(h: Handle, m: Calls) returns (ghost header: HeaderJob, ghost job: GcmJob)
    requires MayCall(h) && h.init.configOnce && h.NeedsConfig() && h.state == Ready && !h.locked
    requires m.sizes != [] && AllFit(h.init, m)
    modifies h, m.output
    ensures old(HeaderPlan(h, m.dma(0), m.direction, header) && PayloadStart(h, m.direction, header, job.full))
    ensures Moved([job], m, old(m.input[..]), old(m.output[..]))
    ensures Done(h, m.direction, job) && job.Bytes() == EffectiveSize(h.init.dataUnit, m.sizes[0])
    ensures h.enabled == OnAfter(true, false, m.dma(0), job.Bytes()) && SumIs(h, job.Bytes())
  {
    ghost var input0, out0 := m.input[..], m.output[..];
    FitsAt(h.init, m, 0);
    header, job := CallOnce(h, m.dma(0), m.direction, m.sizes[0], m.input, m.inAt(0), m.output, m.outAt(0));
    StoredThere(m.output, m.dma(0), job, m.outAt(0));
    FirstMoved(m, job, input0, out0, m.output[..]);
  }

  lemma StoredThere(output: array<Word>, dma: bool, job: GcmJob, at: nat)
    requires job.Valid() && Stored(dma, job) <= |job.Produced()|
    requires Written(output, job.full.out0, at, job.Produced()[..Stored(dma, job)])
    ensures StoredAt(output[..], dma, job, at)
  {
  }

  lemma FirstMoved(m: Calls, job: GcmJob, input0: seq<Word>, out0: seq<Word>, buffer: seq<Word>)
    requires job.full.out0 == out0 && Contains(input0, m.inAt(0), job) && (m.input == m.output ==> input0 == out0)
    requires StoredAt(buffer, m.dma(0), job, m.outAt(0))
    ensures Inputs([job], m, input0) && Outputs([job], m, out0, buffer)
  {
    MovesOn([], m, job, input0, out0, buffer);
    assert [] + [job] == [job];
  }

  lemma MovesOn(jobs: seq<GcmJob>, m: Calls, next: GcmJob, input0: seq<Word>, out0: seq<Word>, buffer: seq<Word>)
    requires Inputs(jobs, m, input0) && Outputs(jobs, m, out0, next.full.out0)
    requires Contains(Given(m, input0, next), m.inAt(|jobs|), next)
    requires StoredAt(buffer, m.dma(|jobs|), next, m.outAt(|jobs|))
    ensures Inputs(jobs + [next], m, input0) && Outputs(jobs + [next], m, out0, buffer)
  {
    assert (jobs + [next])[..|jobs|] == jobs;
  }

  lemma SumGrows(h: Handle, total: nat, sum: nat, bytes: nat) returns (total': nat)
    requires bytes < 0x1_0000 && sum == total % 0x1_0000_0000 && h.sizesSum == NextSum(false, sum, bytes)
      && h.messagePhase == Process
    ensures total' == total + bytes && SumIs(h, total')
  {
    SumAccumulates(total, bytes, false, sum);
    total' := total + bytes;
  }

  /** A later call. */
  method LaterCall(h: Handle, m: Calls, j: nat, ghost before: GcmJob, ghost total: nat)
    returns (ghost job: GcmJob, ghost total': nat)
    requires Done(h, m.direction, before) && h.init.configOnce && SumIs(h, total)
    requires j < |m.sizes| && AllFit(h.init, m)
    requires m.dma(j) || Passes(h.enabled, m.direction, EffectiveSize(h.init.dataUnit, m.sizes[j]))
    modifies h, m.output
    ensures Contains(old(m.input[..]), m.inAt(j), job) && job.full.out0 == old(m.output[..])
    ensures StoredAt(m.output[..], m.dma(j), job, m.outAt(j))
    ensures Done(h, m.direction, job) && Follows(before, job)
      && job.Bytes() == EffectiveSize(h.init.dataUnit, m.sizes[j])
    ensures h.enabled == OnAfter(false, old(h.enabled), m.dma(j), job.Bytes())
    ensures total' == total + job.Bytes() && SumIs(h, total')
  {
    ghost var header, sum := *, h.sizesSum;
    FitsAt(h.init, m, j);
    header, job := CallOnce(h, m.dma(j), m.direction, m.sizes[j], m.input, m.inAt(j), m.output, m.outAt(j));
    StoredThere(m.output, m.dma(j), job, m.outAt(j));
    total' := SumGrows(h, total, sum, job.Bytes());
  }

  /** The jobs so far, the last of them, and the bytes of all. */
  ghost predicate Chained(jobs: seq<GcmJob>, last: GcmJob, total: nat, direction: Direction, unit: SizeUnit,
                          sizes: seq<Half>) {
    && Jobs(jobs, direction, unit, sizes) && 0 < |jobs| <= |sizes| && jobs[|jobs| - 1] == last
    && total == TotalBytes(unit, sizes[..|jobs|])
  }

  lemma JobsGrow(jobs: seq<GcmJob>, last: GcmJob, total: nat, next: GcmJob, direction: Direction, unit: SizeUnit,
                 sizes: seq<Half>)
    requires Chained(jobs, last, total, direction, unit, sizes) && |jobs| < |sizes|
    requires Does(next, direction, EffectiveSize(unit, sizes[|jobs|])) && Follows(last, next)
    ensures Chained(jobs + [next], next, total + next.Bytes(), direction, unit, sizes)
  {
    assert (jobs + [next])[..|jobs|] == jobs;
    TotalBytesPrefix(unit, sizes, |jobs|);
  }

  lemma OneJob(job: GcmJob, direction: Direction, unit: SizeUnit, sizes: seq<Half>)
    requires sizes != [] && Does(job, direction, EffectiveSize(unit, sizes[0]))
    ensures Chained([job], job, job.Bytes(), direction, unit, sizes)
  {
    assert [job][..0] == [] && sizes[..0] == [];
    TotalBytesPrefix(unit, sizes, 0);
  }

  /** A later call of a run. */
  method NextOfRun(h: Handle, m: Calls, j: nat, ghost jobs: seq<GcmJob>, ghost last: GcmJob, ghost total: nat,
                   ghost input0: seq<Word>, ghost out0: seq<Word>)
    returns (ghost jobs': seq<GcmJob>, ghost next: GcmJob, ghost total': nat)
    requires 0 < j < |m.sizes| && j == |jobs| && AllFit(h.init, m)
    requires Done(h, m.direction, last) && h.init.configOnce && SumIs(h, total)
    requires Chained(jobs, last, total, m.direction, h.init.dataUnit, m.sizes)
    requires m.dma(j) || Passes(h.enabled, m.direction, EffectiveSize(h.init.dataUnit, m.sizes[j]))
    requires Moved(jobs, m, input0, out0)
    modifies h, m.output
    ensures |jobs'| == j + 1 && jobs'[0] == jobs[0]
    ensures Done(h, m.direction, next) && SumIs(h, total')
    ensures Chained(jobs', next, total', m.direction, h.init.dataUnit, m.sizes)
    ensures h.enabled == OnAfter(false, old(h.enabled), m.dma(j), EffectiveSize(h.init.dataUnit, m.sizes[j]))
    ensures Moved(jobs', m, input0, out0)
  {
    next, total' := LaterCall(h, m, j, last, total);
    jobs' := Grow(jobs, last, total, next, total', h.init.dataUnit, m, input0, out0, m.output[..]);
  }

  lemma Grow(jobs: seq<GcmJob>, last: GcmJob, total: nat, next: GcmJob, total': nat, unit: SizeUnit, m: Calls,
             input0: seq<Word>, out0: seq<Word>, buffer: seq<Word>)
    returns (jobs': seq<GcmJob>)
    requires total' == total + next.Bytes() && |jobs| < |m.sizes|
    requires Chained(jobs, last, total, m.direction, unit, m.sizes)
    requires Does(next, m.direction, EffectiveSize(unit, m.sizes[|jobs|])) && Follows(last, next)
    requires Inputs(jobs, m, input0) && Outputs(jobs, m, out0, next.full.out0)
    requires Contains(Given(m, input0, next), m.inAt(|jobs|), next)
    requires StoredAt(buffer, m.dma(|jobs|), next, m.outAt(|jobs|))
    ensures |jobs'| == |jobs| + 1 && jobs'[0] == jobs[0]
    ensures Chained(jobs', next, total', m.direction, unit, m.sizes)
    ensures Inputs(jobs', m, input0) && Outputs(jobs', m, out0, buffer)
  {
    jobs' := jobs + [next];
    JobsGrow(jobs, last, total, next, m.direction, unit, m.sizes);
    MovesOn(jobs, m, next, input0, out0, buffer);
  }

  /** The calls after the first. */
  method RestOfRun(h: Handle, m: Calls, ghost first: GcmJob, ghost input0: seq<Word>, ghost out0: seq<Word>)
    returns (ghost jobs: seq<GcmJob>, ghost last: GcmJob, ghost total: nat)
    requires Done(h, m.direction, first) && h.init.configOnce && SumIs(h, first.Bytes())
    requires m.sizes != [] && first.Bytes() == EffectiveSize(h.init.dataUnit, m.sizes[0])
    requires Runs(h.init.dataUnit, m) && h.enabled == OnBefore(h.init.dataUnit, m, 1)
    requires AllFit(h.init, m) && Moved([first], m, input0, out0)
    modifies h, m.output
    ensures |jobs| == |m.sizes| && jobs[0] == first && Chained(jobs, last, total, m.direction, h.init.dataUnit, m.sizes)
    ensures Done(h, m.direction, last) && SumIs(h, total) && Moved(jobs, m, input0, out0)
  {
    jobs, last, total := [first], first, first.Bytes();
    OneJob(first, m.direction, h.init.dataUnit, m.sizes);
    for j := 1 to |m.sizes|
      invariant |jobs| == j && jobs[0] == first && Chained(jobs, last, total, m.direction, h.init.dataUnit, m.sizes)
      invariant Done(h, m.direction, last) && SumIs(h, total) && Moved(jobs, m, input0, out0)
      invariant h.enabled == OnBefore(h.init.dataUnit, m, j)
    {
      jobs, last, total := NextOfRun(h, m, j, jobs, last, total, input0, out0);
    }
  }

  /**
   Any calls of a new message, of any sizes and in any mix of modes that gets through: their jobs
   begin at the header and follow each other, take their words from the input and leave theirs in
   the output, call by call, and the sum of sizes is theirs modulo 2^32.
   */
  method SumCalls(h: Handle, m: Calls) returns (ghost header: HeaderJob, ghost jobs: seq<GcmJob>)
    requires MayCall(h) && h.init.configOnce && h.NeedsConfig() && h.state == Ready && !h.locked && m.sizes != []
    requires Runs(h.init.dataUnit, m) && AllFit(h.init, m)
    modifies h, m.output
    ensures |jobs| == |m.sizes| && Jobs(jobs, m.direction, h.init.dataUnit, m.sizes)
    ensures old(HeaderPlan(h, m.dma(0), m.direction, header) && PayloadStart(h, m.direction, header, jobs[0].full))
    ensures Moved(jobs, m, old(m.input[..]), old(m.output[..]))
    ensures Done(h, m.direction, jobs[|jobs| - 1]) && SumIs(h, TotalBytes(h.init.dataUnit, m.sizes))
  {
    TakeAll(m.sizes);
    ghost var job, last, total, input0, out0 := *, *, *, m.input[..], m.output[..];
    header, job := FirstCall(h, m);
    jobs, last, total := RestOfRun(h, m, job, input0, out0);
  }

  /**
   The tag then covers a final block, the last words on DIN, that counts exactly those bytes; it is
   what the final-phase core makes of it from the hash of the last job.
   */
  method SumAndTag(h: Handle, m: Calls, tag: array<Word>)
    returns (status: Status, ghost header: HeaderJob, ghost jobs: seq<GcmJob>)
    requires MayCall(h) && h.init.configOnce && h.NeedsConfig() && h.state == Ready && !h.locked && m.sizes != []
    requires Runs(h.init.dataUnit, m) && AllFit(h.init, m)
    requires tag.Length >= 4 && tag != m.input
    modifies h, m.output, tag
    ensures status == Ok && |jobs| == |m.sizes| && Jobs(jobs, m.direction, h.init.dataUnit, m.sizes)
    ensures old(HeaderPlan(h, m.dma(0), m.direction, header) && PayloadStart(h, m.direction, header, jobs[0].full))
    ensures Inputs(jobs, m, old(m.input[..]))
    ensures tag != m.output ==> Outputs(jobs, m, old(m.output[..]), m.output[..])
    ensures var sum := TotalBytes(h.init.dataUnit, m.sizes) % 0x1_0000_0000;
            var block, last := LengthBlock(HeaderBits(h.init.headerUnit, h.init.headerSize), sum), jobs[|jobs| - 1];
            && h.din == last.full.din0 + last.Sent() + block.Words() && h.din[|h.din| - 4..] == block.Words()
            && tag[..4] == FinalOf(last.lastCore).Out(last.FinalChain(), block).Words()
    ensures forall j: nat | j < |jobs| ::
      var job := jobs[j];
      job.lastCore.mode.npblb
      == if m.direction == Encryption && job.rest != 0 then 16 - job.rest else job.full.core.mode.npblb
  {
    header, jobs := SumCalls(h, m);
    status := GenerateAuthTag(h, tag);
    JobsPadded(jobs, m.direction, h.init.dataUnit, m.sizes);
  }
}
