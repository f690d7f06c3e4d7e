/** Interrupt-driven AES: HAL_CRYP_IRQHandler and CRYP_AES_IT over whole runs. */
module CrypAesIt {
  import opened Words
  import opened CrypCore
  import opened CrypHandle
  import opened CrypAes
  import opened CrypApi

  /**
   MISR: fewer than four words waiting for the core, or a word waiting to be read.  `gated` says
   whether the input interrupt is silent while the peripheral is off.
   */
  predicate Pending(h: Handle, gated: bool)
    reads h
  {
    || (h.inInterrupt && |h.inFifo| < 4 && (h.enabled || !gated))
    || (h.outInterrupt && h.outFifo != [])
  }

  /** Between two events of an unfinished transfer; one of less than a word has no block at all. */
  ghost predicate Serving(h: Handle, job: Job, i: nat, p: nat, q: nat)
    reads h, h.input, h.output
  {
    && Transfer(h, job, i, p, q) && job.Valid() && job.words <= 4 * job.blocks < job.words + 4
    && h.state == Busy && h.enabled && !h.AbsorbsOnly()
    && (q < job.blocks || job.blocks == 0)
    && i <= p + 2 && p <= q + 2
    && h.outInterrupt && h.inInterrupt == (i == 0 || 4 * i != job.words)
  }

  /** All of the payload is in the output buffer and the handle is free again. */
  ghost predicate Completed(h: Handle, job: Job)
    reads h, h.input, h.output
  {
    && Transfer(h, job, job.blocks, job.blocks, job.blocks) && 0 < job.words <= 4 * job.blocks < job.words + 4
    && h.state == Ready && !h.locked && !h.enabled
    && !h.outInterrupt && h.inInterrupt == (job.words != 4 * job.blocks)
  }

  /** A transfer that was started. */
  ghost predicate Progress(h: Handle, job: Job, i: nat, p: nat, q: nat)
    reads h, h.input, h.output
  {
    && q <= p <= i <= job.blocks
    && if q < job.blocks || job.blocks == 0 then Serving(h, job, i, p, q) else Completed(h, job)
  }

  /** CRYP_AES_Encrypt_IT and CRYP_AES_Decrypt_IT; one to three bytes start a transfer of no blocks. */
  method AesProcessIt(h: Handle, ghost job: Job)
    requires h.init.algorithm == Ecb || h.init.algorithm == Cbc || h.init.algorithm == Ctr
    requires h.state == Busy && h.Drained() && h.inCount == h.outCount == 0 && BuffersFit(h)
    requires job.Valid() && Describes(h, job)
    modifies h`state, h`locked, h`keyIvConfigured, h`messagePhase, h`enabled, h`keyReg, h`chain, h`loads
    modifies h`inInterrupt, h`outInterrupt
    ensures h.loads == old(h.loads + h.StartLoads())
    ensures h.keyIvConfigured == (h.init.configOnce || old(h.keyIvConfigured))
    ensures if h.size != 0 then Serving(h, job, 0, 0, 0) else h.state == Ready && !h.locked && Transfer(h, job, 0, 0, 0)
  {
    Prepare(h, job);
    Arm(h, job);
  }

  /** Interrupts and peripheral on, if there is any payload. */
  method Arm(h: Handle, ghost job: Job)
    requires h.state == Busy && !h.AbsorbsOnly() && Transfer(h, job, 0, 0, 0)
    requires job.Valid() && job.words <= 4 * job.blocks < job.words + 4
    modifies h`state, h`locked, h`enabled, h`inInterrupt, h`outInterrupt
    ensures if h.size != 0 then Serving(h, job, 0, 0, 0) else h.state == Ready && !h.locked && Transfer(h, job, 0, 0, 0)
  {
    if h.size != 0 {
      h.inInterrupt, h.outInterrupt := true, true;
      h.Enable();
    } else {
      h.state := Ready;
      h.locked := false;
    }
  }

  /** The core runs for a while on its own. */
  method CoreRuns(h: Handle, steps: nat, ghost job: Job, ghost i: nat, ghost p: nat, ghost q: nat)
    returns (ghost p': nat)
    requires Serving(h, job, i, p, q)
    modifies h`chain, h`inFifo, h`outFifo
    ensures p <= p' && Serving(h, job, i, p', q)
    ensures steps > 0 && old(h.CanStep()) ==> p < p'
  {
    p' := p;
    var left := steps;
    while left > 0 && h.CanStep()
      invariant p <= p' && Serving(h, job, i, p', q)
      invariant p' == p ==> left == steps && h.CanStep() == old(h.CanStep())
    {
      assert |h.outFifo| == 4 * p' - 4 * q;
      Step(h, job, i, p', q);
      p' := p' + 1;
      left := left - 1;
    }
  }

  method InputHalf(h: Handle, ghost job: Job, ghost i: nat, ghost p: nat, ghost q: nat) returns (ghost i': nat)
    requires Serving(h, job, i, p, q)
    modifies h`inCount, h`inFifo, h`din, h`inInterrupt, h`inCplt
    ensures i <= i' && Serving(h, job, i', p, q)
    ensures h.inCplt == old(h.inCplt) + if i < i' && 4 * i' == job.words then 1 else 0
    ensures i < i' <==> i < p + 2 && i < job.blocks
  {
    i' := i;
    var incount := h.inCount;
    assert |h.inFifo| == 4 * i - 4 * p;
    if |h.inFifo| < FIFO_DEPTH && incount < h.size / 4 {
      Feed(h, job, i, p, q);
      i' := i + 1;
      if h.inCount == h.size / 4 {
        h.inInterrupt := false;
        h.inCplt := h.inCplt + 1;
      }
    }
  }

  method EndOfOutput(h: Handle)
    modifies h`outInterrupt, h`state, h`locked, h`enabled, h`outCplt
    ensures h.state == Ready && !h.outInterrupt && !h.locked && !h.enabled && h.outCplt == old(h.outCplt) + 1
  {
    h.outInterrupt := false;
    h.state := Ready;
    h.Disable();
    h.locked := false;
    h.outCplt := h.outCplt + 1;
  }

  method OutputHalf(h: Handle, ghost job: Job, ghost i: nat, ghost p: nat, ghost q: nat) returns (ghost q': nat)
    requires Serving(h, job, i, p, q)
    modifies h`outCount, h`outFifo, h.output, h`outInterrupt, h`state, h`locked, h`enabled, h`outCplt
    ensures Progress(h, job, i, p, q') && h.outCplt == old(h.outCplt) + if Ends(job, q, q') then 1 else 0
    ensures q' == if q < p then q + 1 else q
  {
    q' := q;
    var outcount := h.outCount;
    assert |h.outFifo| == 4 * p - 4 * q;
    if h.outFifo != [] && outcount < h.size / 4 {
      Drain(h, job, i, p, q);
      q' := q + 1;
      if h.outCount == h.size / 4 {
        EndOfOutput(h);
      }
    }
  }

  /** The last block was read between two moments. */
  predicate Ends(job: Job, q: nat, q': nat) { q < q' == job.blocks }

  /** An interrupt is raised exactly when the handler can write or read a block. */
  lemma PendingMeansWork(h: Handle, gated: bool, job: Job, i: nat, p: nat, q: nat)
    requires Serving(h, job, i, p, q) && job.blocks > 0
    ensures Pending(h, gated) <==> q < p || (i == p && i < job.blocks)
    ensures Pending(h, gated) || h.CanStep()
  {
    assert |h.inFifo| == 4 * i - 4 * p && |h.outFifo| == 4 * p - 4 * q;
  }

  /** With no block to move the interrupt is raised for nothing. */
  lemma PendingForNothing(h: Handle, gated: bool, job: Job, i: nat, p: nat, q: nat)
    requires Serving(h, job, i, p, q) && job.blocks == 0
    ensures Pending(h, gated) && !h.CanStep() && h.outCount == 0 && h.output[..] == job.out0
  {
  }

  /**
   Once the transfer is complete, an interrupt is left over exactly if the input one was never disabled and
   can be heard.
   */
  lemma PendingAfterwards(h: Handle, gated: bool, job: Job)
    requires Completed(h, job)
    ensures Pending(h, gated) <==> Late(gated, job)
    ensures !h.CanStep()
  {
  }

  predicate Late(gated: bool, job: Job) { !gated && job.words != 4 * job.blocks }

  /** The handler while a transfer is under way, the core running for a while between its halves. */
  method Serve(h: Handle, steps: nat, ghost job: Job, ghost i: nat, ghost p: nat, ghost q: nat)
    returns (ghost i': nat, ghost p': nat, ghost q': nat)
    requires Serving(h, job, i, p, q)
    modifies h`inCount, h`outCount, h`chain, h`inFifo, h`outFifo, h`din, h.output
    modifies h`inInterrupt, h`outInterrupt, h`state, h`locked, h`enabled, h`inCplt, h`outCplt
    ensures i <= i' && p <= p' && q <= q' && Progress(h, job, i', p', q')
    ensures h.outCplt == old(h.outCplt) + if Ends(job, q, q') then 1 else 0
    ensures h.inCplt == old(h.inCplt) + if i < i' && 4 * i' == job.words then 1 else 0
    ensures q < p || (i == p && i < job.blocks) ==> i + p + q < i' + p' + q'
  {
    i' := InputHalf(h, job, i, p, q);
    p' := CoreRuns(h, steps, job, i', p, q);
    q' := OutputHalf(h, job, i', p', q);
  }

  /** CRYP_AES_IT. */
  method AesIt(h: Handle, steps: nat, ghost job: Job, ghost i: nat, ghost p: nat, ghost q: nat)
    returns (ghost i': nat, ghost p': nat, ghost q': nat)
    requires h.state == Busy ==> Serving(h, job, i, p, q)
    modifies h`inCount, h`outCount, h`chain, h`inFifo, h`outFifo, h`din, h.output
    modifies h`inInterrupt, h`outInterrupt, h`state, h`locked, h`enabled, h`inCplt, h`outCplt, h`errors, h`errorCalls
    ensures old(h.state) == Busy ==>
      && h.errorCalls == old(h.errorCalls) && h.errors == old(h.errors) && i <= i' && p <= p' && q <= q'
      && Progress(h, job, i', p', q') && h.outCplt == old(h.outCplt) + (if Ends(job, q, q') then 1 else 0)
      && h.inCplt == old(h.inCplt) + (if i < i' && 4 * i' == job.words then 1 else 0)
      && (q < p || (i == p && i < job.blocks) ==> i + p + q < i' + p' + q')
    ensures old(h.state) != Busy ==>
      && i' == i && p' == p && q' == q
      && !h.locked && h.errors == old(h.errors) + {BusyError} && h.errorCalls == old(h.errorCalls) + 1
      && h.output[..] == old(h.output[..]) && h.state == old(h.state)
      && h.outCplt == old(h.outCplt) && h.inCplt == old(h.inCplt) && h.din == old(h.din)
    ensures old(h.state != Busy && Completed(h, job)) ==> Completed(h, job)
  {
    i', p', q' := i, p, q;
    if h.state == Busy {
      i', p', q' := Serve(h, steps, job, i, p, q);
    } else {
      h.locked := false;
      h.errors := h.errors + {BusyError};
      h.errorCalls := h.errorCalls + 1;
    }
  }

  /** What the hardware does next: the core runs, or the interrupt line is sampled. */
  datatype Turn = CoreTurn(steps: nat) | InterruptTurn(steps: nat)

  predicate Useful(h: Handle, gated: bool, turn: Turn)
    reads h
  {
    match turn
    case CoreTurn(steps) => steps > 0 && h.CanStep()
    case InterruptTurn(_) => Pending(h, gated)
  }

  /** HAL_CRYP_IRQHandler, or the core, at any time after a transfer was started. */
  method TakeTurn(h: Handle, gated: bool, turn: Turn, ghost job: Job, ghost i: nat, ghost p: nat, ghost q: nat)
    returns (ghost i': nat, ghost p': nat, ghost q': nat)
    requires Progress(h, job, i, p, q)
    modifies h`inCount, h`outCount, h`chain, h`inFifo, h`outFifo, h`din, h.output
    modifies h`inInterrupt, h`outInterrupt, h`state, h`locked, h`enabled, h`inCplt, h`outCplt, h`errors, h`errorCalls
    ensures i <= i' && p <= p' && q <= q' && Progress(h, job, i', p', q')
    ensures h.outCplt == old(h.outCplt) + if Ends(job, q, q') then 1 else 0
    ensures h.inCplt == old(h.inCplt) + if i < i' && 4 * i' == job.words then 1 else 0
    ensures h.errorCalls == old(h.errorCalls) + if q == job.blocks > 0 && turn.InterruptTurn? && Late(gated, job) then 1
      else 0
    ensures old(Useful(h, gated, turn)) && q < job.blocks ==> i + p + q < i' + p' + q'
  {
    i', p', q' := i, p, q;
    if q < job.blocks {
      PendingMeansWork(h, gated, job, i, p, q);
    } else if job.blocks > 0 {
      PendingAfterwards(h, gated, job);
    }
    match turn
    case CoreTurn(steps) =>
      if h.CanStep() {
        p' := CoreRuns(h, steps, job, i, p, q);
      }
    case InterruptTurn(steps) =>
      if Pending(h, gated) {
        i', p', q' := AesIt(h, steps, job, i, p, q);
      }
  }

  /** Callbacks and errors from the start of a transfer to a moment of it. */
  ghost predicate Reported(h: Handle, gated: bool, job: Job, i: nat, q: nat, inCplt: nat, outCplt: nat, errorCalls: nat)
    reads h`inCplt, h`outCplt, h`errorCalls
  {
    && h.inCplt == inCplt + (if i > 0 && 4 * i == job.words then 1 else 0)
    && h.outCplt == outCplt + (if q == job.blocks > 0 then 1 else 0)
    && h.errorCalls >= errorCalls && (h.errorCalls > errorCalls ==> q == job.blocks > 0 && Late(gated, job))
  }

  /**
   Safety over any run of events, during the transfer and after it: the stored words are always a
   prefix of the result, output never overtakes input, completion is reported once and only when
   everything is stored, and until then some event can always make progress.  Errors are reported
   only by interrupts left over after completion.
   */
  method Run(h: Handle, gated: bool, turns: seq<Turn>, ghost job: Job)
    returns (ghost i: nat, ghost p: nat, ghost q: nat)
    requires Serving(h, job, 0, 0, 0)
    modifies h`inCount, h`outCount, h`chain, h`inFifo, h`outFifo, h`din, h.output
    modifies h`inInterrupt, h`outInterrupt, h`state, h`locked, h`enabled, h`inCplt, h`outCplt, h`errors, h`errorCalls
    ensures Progress(h, job, i, p, q) && Reported(h, gated, job, i, q, old(h.inCplt), old(h.outCplt), old(h.errorCalls))
    ensures h.state == Ready <==> q == job.blocks > 0
    ensures h.outCount <= h.inCount && h.outCount <= |job.result|
    ensures Written(h.output, job.out0, h.outBase, job.result[..h.outCount])
    ensures q < job.blocks ==> Pending(h, gated) || h.CanStep()
    ensures q == job.blocks > 0 ==> h.outCount == job.words && (Pending(h, gated) <==> Late(gated, job))
    ensures job.blocks == 0 ==> Pending(h, gated) && !h.CanStep() && h.outCount == 0
  {
    i, p, q := 0, 0, 0;
    for t := 0 to |turns|
      invariant Progress(h, job, i, p, q)
      invariant Reported(h, gated, job, i, q, old(h.inCplt), old(h.outCplt), old(h.errorCalls))
    {
      i, p, q := TakeTurn(h, gated, turns[t], job, i, p, q);
    }
    Stands(h, gated, job, i, p, q);
  }

  lemma Stands(h: Handle, gated: bool, job: Job, i: nat, p: nat, q: nat)
    requires Progress(h, job, i, p, q)
    ensures q < job.blocks ==> Pending(h, gated) || h.CanStep()
    ensures q == job.blocks > 0 ==> h.outCount == job.words && (Pending(h, gated) <==> Late(gated, job))
    ensures job.blocks == 0 ==> Pending(h, gated) && !h.CanStep() && h.outCount == 0
  {
    if job.blocks == 0 {
      PendingForNothing(h, gated, job, i, p, q);
    } else if q < job.blocks {
      PendingMeansWork(h, gated, job, i, p, q);
    } else {
      PendingAfterwards(h, gated, job);
    }
  }

  /** A turn that does something if any can: the wished one, or else one that is due. */
  method FairTurn(h: Handle, gated: bool, wish: Turn, ghost job: Job, ghost i: nat, ghost p: nat, ghost q: nat,
                  ghost inCplt: nat, ghost outCplt: nat, ghost errorCalls: nat)
    returns (ghost i': nat, ghost p': nat, ghost q': nat)
    requires Progress(h, job, i, p, q) && Reported(h, gated, job, i, q, inCplt, outCplt, errorCalls)
    modifies h`inCount, h`outCount, h`chain, h`inFifo, h`outFifo, h`din, h.output
    modifies h`inInterrupt, h`outInterrupt, h`state, h`locked, h`enabled, h`inCplt, h`outCplt, h`errors, h`errorCalls
    ensures Progress(h, job, i', p', q') && Reported(h, gated, job, i', q', inCplt, outCplt, errorCalls)
    ensures q < job.blocks ==> i + p + q < i' + p' + q'
    ensures q == job.blocks ==> q' == job.blocks
  {
    Stands(h, gated, job, i, p, q);
    var turn := wish;
    if !Useful(h, gated, turn) {
      turn := if Pending(h, gated) then InterruptTurn(0) else CoreTurn(1);
    }
    i', p', q' := TakeTurn(h, gated, turn, job, i, p, q);
  }

  /**
   Liveness: however the events are picked, as long as an event that can do something is taken
   when the pick cannot, three events a block complete the transfer; one without blocks never ends.
   */
  method RunFairly(h: Handle, gated: bool, pick: nat -> Turn, n: nat, ghost job: Job)
    returns (ghost i: nat, ghost p: nat, ghost q: nat)
    requires Serving(h, job, 0, 0, 0)
    modifies h`inCount, h`outCount, h`chain, h`inFifo, h`outFifo, h`din, h.output
    modifies h`inInterrupt, h`outInterrupt, h`state, h`locked, h`enabled, h`inCplt, h`outCplt, h`errors, h`errorCalls
    ensures Progress(h, job, i, p, q) && Reported(h, gated, job, i, q, old(h.inCplt), old(h.outCplt), old(h.errorCalls))
    ensures n >= 3 * job.blocks ==> (h.state == Ready <==> job.blocks > 0)
  {
    i, p, q := 0, 0, 0;
    for t := 0 to n
      invariant Progress(h, job, i, p, q)
      invariant Reported(h, gated, job, i, q, old(h.inCplt), old(h.outCplt), old(h.errorCalls))
      invariant q < job.blocks ==> t <= i + p + q
    {
      i, p, q := FairTurn(h, gated, pick(t), job, i, p, q, old(h.inCplt), old(h.outCplt), old(h.errorCalls));
    }
  }

  /** How a started call of `bytes` bytes stands after n fair events. */
  ghost predicate Outcome(h: Handle, gated: bool, n: nat, bytes: nat, core: Core, chain: Chain, src: seq<Word>,
                          din0: seq<Word>, output: array<Word>, outBase: nat, out0: seq<Word>)
    requires |src| == 4 * Blocks(bytes)
    reads h, output
  {
    && (n >= 3 * Blocks(bytes) ==> (h.state == Ready <==> bytes == 0 || bytes >= 4))
    && (h.state == Ready ==> AesResult(h, bytes, core, chain, src, din0, output, outBase, out0))
    && (0 < bytes < 4 ==> h.state == Busy && Pending(h, gated) && output[..] == out0)
  }

  /** A started call, and n fair events. */
  method StartAndRun(h: Handle, gated: bool, pick: nat -> Turn, n: nat)
    requires h.init.algorithm == Ecb || h.init.algorithm == Cbc || h.init.algorithm == Ctr
    requires h.state == Busy && h.Drained() && h.inCount == h.outCount == 0 && BuffersFit(h)
    modifies h`keyIvConfigured, h`messagePhase, h`keyReg, h`loads
    modifies h`inCount, h`outCount, h`chain, h`inFifo, h`outFifo, h`din, h.output
    modifies h`inInterrupt, h`outInterrupt, h`state, h`locked, h`enabled, h`inCplt, h`outCplt, h`errors, h`errorCalls
    ensures Outcome(h, gated, n, h.size, old(h.StartEngine()), old(h.StartChain()), old(Payload(h)), old(h.din),
                    h.output, h.outBase, old(h.output[..]))
    ensures h.outCplt == old(h.outCplt) + if h.state == Ready && h.size != 0 then 1 else 0
  {
    ghost var job := JobFor(h);
    ghost var core, chain, din0, out0 := h.StartEngine(), h.StartChain(), h.din, h.output[..];
    ghost var src := Payload(h);
    AesProcessIt(h, job);
    if h.state == Busy {
      ghost var i, p, q := RunFairly(h, gated, pick, n, job);
      Ended(h, gated, n, job, i, p, q, core, chain, src, din0, out0);
    } else {
      ResultOf(h, job, core, chain, src, din0, out0);
    }
  }

  lemma Ended(h: Handle, gated: bool, n: nat, job: Job, i: nat, p: nat, q: nat,
              core: Core, chain: Chain, src: seq<Word>, din0: seq<Word>, out0: seq<Word>)
    requires Progress(h, job, i, p, q) && h.size != 0 && job.blocks == Blocks(h.size)
    requires job.result == Output(job.core, job.chain, job.src, job.blocks)
    requires job.core == core && job.chain == chain && job.src == src && job.din0 == din0 && job.out0 == out0
    requires n >= 3 * job.blocks ==> (h.state == Ready <==> job.blocks > 0)
    ensures Outcome(h, gated, n, h.size, core, chain, src, din0, h.output, h.outBase, out0)
  {
    if h.state == Ready {
      ResultOf(h, job, core, chain, src, din0, out0);
    }
    if job.blocks == 0 {
      PendingForNothing(h, gated, job, i, p, q);
    }
  }

  /** The call in terms of the size the handle keeps. */
  method CallIt(h: Handle, direction: Direction, input: array<Word>, inBase: nat, size: nat, output: array<Word>,
                outBase: nat, gated: bool, pick: nat -> Turn, n: nat)
    returns (status: Status)
    requires h.init.algorithm == Ecb || h.init.algorithm == Cbc || h.init.algorithm == Ctr
    requires size < 0x1_0000 && (h.state == Ready ==> h.Drained())
    requires inBase + 4 * Blocks(EffectiveSize(h.init.dataUnit, size)) <= input.Length
    requires outBase + EffectiveSize(h.init.dataUnit, size) / 4 <= output.Length
    requires input == output ==> outBase <= inBase
    modifies h, output
    ensures status == if old(h.state) != Ready then Error else if old(h.locked) then HalBusy else Ok
    ensures status == Ok ==>
      var bytes := EffectiveSize(h.init.dataUnit, size);
      && h.outCplt == old(h.outCplt) + (if h.state == Ready && bytes != 0 then 1 else 0)
      && Outcome(h, gated, n, bytes, old(CallCore(h, direction)), old(h.StartChain()),
                 old(input[inBase..inBase + 4 * Blocks(EffectiveSize(h.init.dataUnit, size))]), old(h.din),
                 output, outBase, old(output[..]))
    ensures status != Ok ==>
      h.state == Busy && output[..] == old(output[..]) && h.loads == old(h.loads) && h.din == old(h.din)
  {
    status := Begin(h, Interrupt, direction, input, inBase, size, output, outBase);
    if status == Ok {
      assert h.StartEngine() == old(CallCore(h, direction)) && h.StartChain() == old(h.StartChain());
      assert Payload(h) == old(input[inBase..inBase + 4 * Blocks(EffectiveSize(h.init.dataUnit, size))]);
      StartAndRun(h, gated, pick, n);
    }
  }

  /**
   HAL_CRYP_Encrypt_IT and HAL_CRYP_Decrypt_IT and what follows: under fair events the call ends
   exactly if its payload is empty or has a whole word, and then with the polling call's result.
   */
  method CryptIt(h: Handle, direction: Direction, input: array<Word>, inBase: nat, size: nat, output: array<Word>,
                 outBase: nat, gated: bool, pick: nat -> Turn, n: nat)
    returns (status: Status)
    requires h.init.algorithm == Ecb || h.init.algorithm == Cbc || h.init.algorithm == Ctr
    requires size < 0x1_0000 && (h.state == Ready ==> h.Drained())
    requires inBase + 4 * Blocks(EffectiveSize(h.init.dataUnit, size)) <= input.Length
    requires outBase + EffectiveSize(h.init.dataUnit, size) / 4 <= output.Length
    requires input == output ==> outBase <= inBase
    modifies h, output
    ensures status == if old(h.state) != Ready then Error else if old(h.locked) then HalBusy else Ok
    ensures status == Ok ==>
      var bytes := EffectiveSize(h.init.dataUnit, size);
      && (h.init.dataUnit == InBytes ==> bytes == size)
      && (h.init.dataUnit == InWords ==> bytes < 0x1_0000 && 4 * size - bytes in {0, 0x1_0000, 0x2_0000, 0x3_0000})
      && h.outCplt == old(h.outCplt) + (if h.state == Ready && bytes != 0 then 1 else 0)
      && var again := old(h.init.configOnce && h.keyIvConfigured);
         var core := Core(h.cipher, Mode(h.init.algorithm, direction, old(h.gcmPhase), old(h.npblb)),
                          if again then old(h.keyReg) else h.init.key);
         var chain := if again || h.init.algorithm == Ecb then old(h.chain) else h.init.iv;
         Outcome(h, gated, n, bytes, core, chain,
                 old(input[inBase..inBase + 4 * Blocks(EffectiveSize(h.init.dataUnit, size))]), old(h.din),
                 output, outBase, old(output[..]))
    ensures status != Ok ==>
      h.state == Busy && output[..] == old(output[..]) && h.loads == old(h.loads) && h.din == old(h.din)
  {
    SizeNumbers(h.init.dataUnit, size);
    status := CallIt(h, direction, input, inBase, size, output, outBase, gated, pick, n);
  }
}
