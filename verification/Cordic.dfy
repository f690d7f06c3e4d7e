/** The CORDIC driver in polling mode, with and without the result-ready flag. */
module Cordic {
  import opened Words

  datatype State = Ready | Busy
  datatype Status = Ok | Error
  datatype ErrorFlag = Param | NotReady | Timeout

  const MAX_DELAY: int := 0xFFFF_FFFF

  /** One calculation: its two results. */
  type Result = (int, int)

  /** Words taken by n calculations of one or two words each. */
  function Wide(two: bool, n: nat): nat { if two then 2 * n else n }

  /** The handle and the unit: at most two calculations are in flight. */
  class Handle {
    const f: (int, int) -> Result

    var state: State
    var errors: set<ErrorFlag>
    var inBuff: array?<int>
    var pIn: nat
    var outBuff: array?<int>
    var pOut: nat
    var toOrder: nat
    var toGet: nat
    var cplt: nat                // calls of the completion callback

    var twoArgs: bool            // CSR.NARGS
    var twoRes: bool             // CSR.NRES
    var interrupt: bool          // CSR.IEN
    var arg2: int                // kept from one calculation to the next
    var first: seq<int>          // a first argument whose second is still to come
    var pending: seq<Result>     // calculations ordered and not yet read
    var half: bool               // the first result of pending[0] has been read

    /** HAL_CORDIC_Init, and a configuration. */
    constructor (f: (int, int) -> Result, twoArgs: bool, twoRes: bool)
      ensures this.f == f && this.twoArgs == twoArgs && this.twoRes == twoRes
      ensures state == Ready && errors == {} && !interrupt && cplt == 0 && Idle()
    {
      this.f, this.twoArgs, this.twoRes := f, twoArgs, twoRes;
      state, errors, interrupt, arg2, first, pending, half := Ready, {}, false, 0, [], [], false;
      inBuff, outBuff, pIn, pOut, toOrder, toGet, cplt := null, null, 0, 0, 0, 0, 0;
    }

    predicate Idle()
      reads `first, `pending, `half
    {
      first == [] && pending == [] && !half
    }

    /** A write to WDATA, which orders a calculation when it completes its arguments. */
    method WriteData(w: int)
      requires |pending| < 2
      modifies `arg2, `first, `pending
      ensures twoArgs && old(first) != [] ==>
        first == [] && arg2 == w && pending == old(pending) + [f(old(first)[0], w)]
      ensures twoArgs && old(first) == [] ==> first == [w] && arg2 == old(arg2) && pending == old(pending)
      ensures !twoArgs ==> first == old(first) && arg2 == old(arg2) && pending == old(pending) + [f(w, arg2)]
    {
      if !twoArgs {
        pending := pending + [f(w, arg2)];
      } else if first == [] {
        first := [w];
      } else {
        pending, arg2, first := pending + [f(first[0], w)], w, [];
      }
    }

    /** A read of RDATA, which waits for a result if none is ready. */
    method ReadData() returns (w: int)
      requires pending != []
      modifies `pending, `half
      ensures w == if old(half) then old(pending)[0].1 else old(pending)[0].0
      ensures if twoRes && !old(half) then half && pending == old(pending) else !half && pending == old(pending)[1..]
    {
      w := if half then pending[0].1 else pending[0].0;
      if twoRes && !half {
        half := true;
      } else {
        half, pending := false, pending[1..];
      }
    }

    /**
     CORDIC_WriteInDataIncrementPtr: one calculation is ordered.  With an argument still open, which
     only an interrupt in the middle of a start can find, the arguments are paired across.
     */
    method WriteIn(input: array<int>, p: nat) returns (next: nat)
      requires |pending| < 2 && (first != [] ==> pending == []) && p + Wide(twoArgs, 1) <= input.Length
      modifies `arg2, `first, `pending
      ensures next == p + Wide(twoArgs, 1)
      ensures !twoArgs ==> first == old(first) && arg2 == old(arg2) && pending == old(pending) + [f(input[p], arg2)]
      ensures twoArgs && old(first) == [] ==>
        first == [] && arg2 == input[p + 1] && pending == old(pending) + [f(input[p], input[p + 1])]
      ensures twoArgs && old(first) != [] ==>
        first == [input[p + 1]] && arg2 == input[p] && pending == old(pending) + [f(old(first)[0], input[p])]
    {
      WriteData(input[p]);
      next := p + 1;
      if twoArgs {
        WriteData(input[next]);
        next := next + 1;
      }
    }

    /** CORDIC_ReadOutDataIncrementPtr. */
    method ReadOut(output: array<int>, p: nat) returns (next: nat)
      requires pending != [] && !half && p + Wide(twoRes, 1) <= output.Length
      modifies `pending, `half, output
      ensures next == p + Wide(twoRes, 1) && !half && pending == old(pending)[1..]
      ensures Written(output, old(output[..]), p, ResultWords(twoRes, old(pending)[0]))
    {
      output[p] := ReadData();
      next := p + 1;
      if twoRes {
        output[next] := ReadData();
        next := next + 1;
      }
    }
  }

  // What must be stored

  function ResultWords(twoRes: bool, r: Result): (s: seq<int>)
    ensures |s| == Wide(twoRes, 1)
  {
    if twoRes then [r.0, r.1] else [r.0]
  }

  /** The arguments of calculation i. */
  function Args(twoArgs: bool, arg2: int, ws: seq<int>, i: nat): (int, int)
    requires Wide(twoArgs, i + 1) <= |ws|
  {
    if twoArgs then (ws[2 * i], ws[2 * i + 1]) else (ws[i], arg2)
  }

  /** The results of the first k calculations on words written to the unit. */
  function Results(f: (int, int) -> Result, twoArgs: bool, arg2: int, ws: seq<int>, k: nat): (r: seq<Result>)
    requires Wide(twoArgs, k) <= |ws|
    ensures |r| == k
  {
    seq(k, i requires 0 <= i < k => f(Args(twoArgs, arg2, ws, i).0, Args(twoArgs, arg2, ws, i).1))
  }

  /** The words of several results, one after the other. */
  function Spread(twoRes: bool, results: seq<Result>): (s: seq<int>)
    ensures |s| == Wide(twoRes, |results|)
  {
    seq(Wide(twoRes, |results|), j requires 0 <= j < Wide(twoRes, |results|) =>
      if !twoRes then results[j].0 else if j % 2 == 0 then results[j / 2].0 else results[j / 2].1)
  }

  lemma SpreadOn(twoRes: bool, all: seq<Result>, c: nat)
    requires c < |all|
    ensures Spread(twoRes, all[..c + 1]) == Spread(twoRes, all[..c]) + ResultWords(twoRes, all[c])
    ensures all[c..][0] == all[c] && all[c..][1..] == all[c + 1..]
  {
  }

  /**
   A run of n calculations: the words it takes and where from, the second argument it starts
   with, the results an earlier call left in the unit, where its own go, and the buffer before.
   */
  datatype Job = Job(f: (int, int) -> Result, twoArgs: bool, twoRes: bool, n: nat,
                     input: array<int>, inBase: nat, src: seq<int>, arg2: int, late: seq<Result>,
                     output: array<int>, outBase: nat, out0: seq<int>)
  {
    /** What the unit delivers for the first k calculations on the words ws: results left over come first. */
    function All(ws: seq<int>, k: nat): (all: seq<Result>)
      requires Wide(twoArgs, k) <= |ws|
      ensures |all| == |late| + k
    {
      late + Results(f, twoArgs, arg2, ws, k)
    }

    ghost predicate Valid() {
      && |src| == Wide(twoArgs, n) && |out0| == output.Length
      && inBase + |src| <= input.Length && outBase + Wide(twoRes, n) <= output.Length
      && (input == output ==> outBase <= inBase && (twoRes ==> twoArgs))
    }
  }

  ghost predicate Describes(h: Handle, job: Job)
    reads h, job.input, job.output
  {
    && job.Valid() && job.f == h.f && job.twoArgs == h.twoArgs && job.twoRes == h.twoRes && job.arg2 == h.arg2
    && job.late == h.pending
    && job.src == job.input[job.inBase..job.inBase + |job.src|] && job.out0 == job.output[..]
  }

  /** Every run with room for its buffers has a job; writing over the input must not overtake reading. */
  lemma JobExists(h: Handle, n: nat, input: array<int>, inBase: nat, output: array<int>, outBase: nat)
    returns (job: Job)
    requires inBase + Wide(h.twoArgs, n) <= input.Length && outBase + Wide(h.twoRes, n) <= output.Length
    requires input == output ==> outBase <= inBase && (h.twoRes ==> h.twoArgs)
    ensures Describes(h, job) && job.n == n
    ensures job.input == input && job.inBase == inBase && job.output == output && job.outBase == outBase
  {
    var src := input[inBase..inBase + Wide(h.twoArgs, n)];
    job := Job(h.f, h.twoArgs, h.twoRes, n, input, inBase, src, h.arg2, h.pending, output, outBase, output[..]);
  }

  // What the unit holds

  /** The second argument kept after k calculations. */
  function Kept(twoArgs: bool, arg2: int, ws: seq<int>, k: nat): int
    requires Wide(twoArgs, k) <= |ws|
  {
    if twoArgs && k > 0 then ws[2 * k - 1] else arg2
  }

  /**
   The unit was given the words ws, which are k calculations and perhaps a first argument, and has
   delivered c results; those are in the output buffer, in which nothing else has changed, and the
   others are in flight.
   */
  ghost predicate Stream(h: Handle, job: Job, ws: seq<int>, k: nat, c: nat)
    reads h`twoArgs, h`twoRes, h`arg2, h`first, h`pending, h`half, job.output
  {
    && job.f == h.f && job.twoArgs == h.twoArgs && job.twoRes == h.twoRes && !h.half
    && Wide(job.twoArgs, k) <= |ws| < Wide(job.twoArgs, k + 1)
    && h.first == ws[Wide(job.twoArgs, k)..] && h.arg2 == Kept(job.twoArgs, job.arg2, ws, k)
    && c <= |job.late| + k && h.pending == job.All(ws, k)[c..]
    && Written(job.output, job.out0, job.outBase, Spread(job.twoRes, job.All(ws, k)[..c]))
  }

  /** Words further on do not matter. */
  lemma SameResults(job: Job, ws: seq<int>, more: seq<int>, k: nat)
    requires Wide(job.twoArgs, k) <= |ws|
    ensures job.All(ws + more, k) == job.All(ws, k)
  {
    forall i | 0 <= i < k
      ensures Results(job.f, job.twoArgs, job.arg2, ws + more, k)[i] == Results(job.f, job.twoArgs, job.arg2, ws, k)[i]
    {
      assert Args(job.twoArgs, job.arg2, ws + more, i) == Args(job.twoArgs, job.arg2, ws, i);
    }
  }

  /** Words that complete one more calculation. */
  lemma OneMore(job: Job, ws: seq<int>, more: seq<int>, k: nat, c: nat)
    requires Wide(job.twoArgs, k) <= |ws| && Wide(job.twoArgs, k + 1) <= |ws + more| && c <= |job.late| + k
    ensures var all, all1, args := job.All(ws, k), job.All(ws + more, k + 1), Args(job.twoArgs, job.arg2, ws + more, k);
            && all1[..c] == all[..c] && all1[c..] == all[c..] + [job.f(args.0, args.1)]
  {
    SameResults(job, ws, more, k);
    var args := Args(job.twoArgs, job.arg2, ws + more, k);
    assert job.All(ws + more, k + 1) == job.All(ws + more, k) + [job.f(args.0, args.1)];
  }

  /** The calculations complete with one word more. */
  function Completed(two: bool, words: nat, k: nat): nat { if words + 1 == Wide(two, k + 1) then k + 1 else k }

  /** A word written to the unit. */
  method FeedWord(h: Handle, w: int, ghost job: Job, ghost ws: seq<int>, ghost k: nat, ghost c: nat)
    requires Stream(h, job, ws, k, c) && |h.pending| < 2
    modifies h`arg2, h`first, h`pending
    ensures Stream(h, job, ws + [w], Completed(job.twoArgs, |ws|, k), c)
  {
    if Completed(job.twoArgs, |ws|, k) == k {
      SameResults(job, ws, [w], k);
    } else {
      OneMore(job, ws, [w], k, c);
    }
    h.WriteData(w);
  }

  /** The arguments of one calculation. */
  method Feed(h: Handle, input: array<int>, p: nat, ghost job: Job, ghost ws: seq<int>, ghost k: nat, ghost c: nat)
    returns (next: nat)
    requires Stream(h, job, ws, k, c) && p + Wide(job.twoArgs, 1) <= input.Length
    requires |h.pending| < 2 && (h.first != [] ==> h.pending == [])
    modifies h`arg2, h`first, h`pending
    ensures Stream(h, job, ws + input[p..p + Wide(job.twoArgs, 1)], k + 1, c) && next == p + Wide(job.twoArgs, 1)
  {
    OneMore(job, ws, input[p..p + Wide(job.twoArgs, 1)], k, c);
    next := h.WriteIn(input, p);
  }

  /** The oldest result, into the output buffer. */
  method Store(h: Handle, output: array<int>, p: nat, ghost job: Job, ghost ws: seq<int>, ghost k: nat, ghost c: nat)
    returns (next: nat)
    requires Stream(h, job, ws, k, c) && h.pending != [] && output == job.output
    requires p == job.outBase + Wide(job.twoRes, c) && p + Wide(job.twoRes, 1) <= output.Length
    modifies h`pending, h`half, job.output
    ensures Stream(h, job, ws, k, c + 1) && next == p + Wide(job.twoRes, 1)
    ensures forall j | 0 <= j < output.Length && !(p <= j < next) :: output[j] == old(output[j])
  {
    ghost var all, buffer1 := job.All(ws, k), output[..];
    SpreadOn(job.twoRes, all, c);
    next := h.ReadOut(output, p);
    WrittenTwice(output, buffer1, job.out0, job.outBase, Spread(job.twoRes, all[..c]), ResultWords(job.twoRes, all[c]));
  }

  // In order

  /** The input from calculation i on is what it was. */
  ghost predicate Unread(job: Job, i: nat)
    reads job.input
  {
    && job.inBase + |job.src| <= job.input.Length
    && forall j | job.inBase + Wide(job.twoArgs, i) <= j < job.inBase + |job.src| ::
         job.input[j] == job.src[j - job.inBase]
  }

  /** i calculations are ordered and c results are read back; nothing else has changed. */
  ghost predicate Pipeline(h: Handle, job: Job, i: nat, c: nat)
    reads h`twoArgs, h`twoRes, h`arg2, h`first, h`pending, h`half, job.input, job.output
  {
    && c <= i <= job.n && job.Valid() && Stream(h, job, job.src[..Wide(job.twoArgs, i)], i, c) && Unread(job, i)
  }

  /** The words of the next calculation. */
  lemma NextWords(job: Job, input: array<int>, p: nat, i: nat)
    requires i < job.n && job.Valid() && Unread(job, i) && input == job.input && p == job.inBase + Wide(job.twoArgs, i)
    ensures job.src[..Wide(job.twoArgs, i)] + input[p..p + Wide(job.twoArgs, 1)] == job.src[..Wide(job.twoArgs, i + 1)]
  {
  }

  /** Ordering the next calculation, for which the unit must have room. */
  method Order(h: Handle, p: nat, ghost job: Job, input: array<int>, ghost i: nat, ghost c: nat) returns (next: nat)
    requires Pipeline(h, job, i, c) && i < job.n && |job.late| + i < c + 2
    requires input == job.input && p == job.inBase + Wide(job.twoArgs, i)
    modifies h`arg2, h`first, h`pending
    ensures Pipeline(h, job, i + 1, c) && next == job.inBase + Wide(job.twoArgs, i + 1)
  {
    NextWords(job, input, p, i);
    next := Feed(h, input, p, job, job.src[..Wide(job.twoArgs, i)], i, c);
  }

  /** Collecting the oldest result. */
  method Collect(h: Handle, p: nat, ghost job: Job, output: array<int>, ghost i: nat, ghost c: nat) returns (next: nat)
    requires Pipeline(h, job, i, c) && c < i && output == job.output && p == job.outBase + Wide(job.twoRes, c)
    modifies h`pending, h`half, job.output
    ensures Pipeline(h, job, i, c + 1) && next == job.outBase + Wide(job.twoRes, c + 1)
  {
    next := Store(h, output, p, job, job.src[..Wide(job.twoArgs, i)], i, c);
  }

  /** Ticks are 32-bit and subtracted as such. */
  function Elapsed(now: Word, start: Word): Word {
    if now >= start then now - start else now - start + 0x1_0000_0000
  }

  predicate Expired(timeout: Word, now: Word, start: Word) {
    timeout != MAX_DELAY && Elapsed(now, start) > timeout
  }

  /** Tick reads 1 to k are all within the timeout. */
  predicate InTime(tick: nat -> Word, timeout: Word, k: nat) {
    k == 0 || (InTime(tick, timeout, k - 1) && !Expired(timeout, tick(k), tick(0)))
  }

  lemma {:induction false} InTimeMeans(tick: nat -> Word, timeout: Word, k: nat)
    ensures InTime(tick, timeout, k) <==> forall t :: 1 <= t <= k ==> !Expired(timeout, tick(t), tick(0))
  {
    if k > 0 {
      InTimeMeans(tick, timeout, k - 1);
    }
  }

  /** In numbers: there is no limit, or every reading is at most the timeout after the first, modulo 2^32. */
  lemma InTimeNumbers(tick: nat -> Word, timeout: Word, k: nat)
    ensures InTime(tick, timeout, k) <==>
      timeout == 0xFFFF_FFFF || forall t :: 1 <= t <= k ==> (tick(t) - tick(0)) % 0x1_0000_0000 <= timeout
  {
    InTimeMeans(tick, timeout, k);
    forall t: nat ensures Expired(timeout, tick(t), tick(0)) <==>
      timeout != 0xFFFF_FFFF && (tick(t) - tick(0)) % 0x1_0000_0000 > timeout
    {
      ElapsedModulo(tick(t), tick(0));
    }
  }

  lemma ElapsedModulo(now: Word, start: Word)
    ensures Elapsed(now, start) == (now - start) % 0x1_0000_0000
  {
  }

  lemma {:induction false} LateForGood(tick: nat -> Word, timeout: Word, k: nat, n: nat)
    requires k <= n && !InTime(tick, timeout, k)
    ensures !InTime(tick, timeout, n)
  {
    if k < n {
      LateForGood(tick, timeout, k, n - 1);
    }
  }

  /** The tick readings of k waits: one before each reading of the flag. */
  function Readings(latency: nat -> nat, k: nat): nat {
    if k == 0 then 0 else Readings(latency, k - 1) + latency(k - 1) + 1
  }

  lemma {:induction false} ReadingsGrow(latency: nat -> nat, j: nat, k: nat)
    requires j <= k
    ensures Readings(latency, j) <= Readings(latency, k)
  {
    if j < k {
      ReadingsGrow(latency, j, k - 1);
    }
  }

  /** The wait for RRDY: `latency` reads of the flag find it clear, the t-th tick read gives tick(t). */
  method WaitReady(tick: nat -> Word, tickstart: Word, timeout: Word, latency: nat, t: nat)
    returns (expired: bool, next: nat)
    ensures expired <==> exists u :: t <= u <= t + latency && Expired(timeout, tick(u), tickstart)
    ensures !expired && timeout != MAX_DELAY ==> next == t + latency + 1
  {
    next := t;
    var polls, ready := 0, false;
    while !ready
      invariant polls <= latency + 1 && (ready <==> polls == latency + 1)
      invariant timeout != MAX_DELAY ==> next == t + polls
      invariant forall u :: t <= u < t + polls ==> !Expired(timeout, tick(u), tickstart)
      decreases latency + 1 - polls
    {
      if timeout != MAX_DELAY {
        next := next + 1;
        if Elapsed(tick(next - 1), tickstart) > timeout {
          assert Expired(timeout, tick(t + polls), tickstart);
          return true, next;
        }
      }
      assert !Expired(timeout, tick(t + polls), tickstart);
      ready := polls >= latency;
      polls := polls + 1;
    }
    return false, next;
  }

  /** r readings are done, all in time, and tick(t) is the next. */
  predicate OnTime(tick: nat -> Word, timeout: Word, r: nat, t: nat) {
    InTime(tick, timeout, r) && (timeout != MAX_DELAY ==> t == r + 1)
  }

  lemma WaitMeans(tick: nat -> Word, timeout: Word, r: nat, t: nat, latency: nat)
    requires OnTime(tick, timeout, r, t)
    ensures InTime(tick, timeout, r + latency + 1) <==>
      forall u :: t <= u <= t + latency ==> !Expired(timeout, tick(u), tick(0))
  {
    InTimeMeans(tick, timeout, r);
    InTimeMeans(tick, timeout, r + latency + 1);
  }

  /** The common refusals: bad parameters, or a handle that is not ready. */
  predicate Refused(h: Handle, input: array?<int>, output: array?<int>, n: nat)
    reads h`state
  {
    input == null || output == null || n == 0 || h.state != Ready
  }

  function RefusalOf(input: array?<int>, output: array?<int>, n: nat): ErrorFlag {
    if input == null || output == null || n == 0 then Param else NotReady
  }

  /** A run ends complete, or timed out with `left` calculations in flight and a correct prefix stored. */
  ghost predicate Outcome(h: Handle, status: Status, timeout: Word, job: Job, stored: nat, left: nat)
    reads h, job.input, job.output
  {
    && h.state == Ready
    && (status == Ok ==> h.errors == {} && stored == job.n && Pipeline(h, job, job.n, job.n))
    && (status == Error ==>
          h.errors == {Timeout} && timeout != MAX_DELAY && stored + left <= job.n
            && Pipeline(h, job, stored + left, stored))
  }

  /** The first two orders, which come before any reading, must find room beside what is left over. */
  predicate Room(late: nat, n: nat) { late + Min(n, 2) <= 2 }

  /** Between readings: c results are read, one calculation is ahead of them, and the pointers stand there. */
  ghost predicate Ahead(h: Handle, job: Job, c: nat, p: nat, q: nat)
    reads h`twoArgs, h`twoRes, h`arg2, h`first, h`pending, h`half, job.input, job.output
  {
    && c < job.n && Pipeline(h, job, c + 1, c) && Room(|job.late|, job.n)
    && p == job.inBase + Wide(job.twoArgs, c + 1) && q == job.outBase + Wide(job.twoRes, c)
  }

  /** A wait whose tick readings are those from r up to r1. */
  method WaitFrom(tick: nat -> Word, timeout: Word, latency: nat, ghost r: nat, ghost r1: nat, t: nat)
    returns (expired: bool, next: nat)
    requires OnTime(tick, timeout, r, t) && r1 == r + latency + 1
    ensures if expired then !InTime(tick, timeout, r1) else OnTime(tick, timeout, r1, next)
  {
    WaitMeans(tick, timeout, r, t, latency);
    expired, next := WaitReady(tick, tick(0), timeout, latency, t);
  }

  /** One order, and one reading if its result comes in time. */
  method OrderWaitCollect(h: Handle, p: nat, q: nat, ghost job: Job, input: array<int>, output: array<int>,
                          ghost c: nat, tick: nat -> Word, timeout: Word, latency: nat, ghost r: nat, ghost r1: nat,
                          t: nat)
    returns (expired: bool, next: nat, pIn: nat, pOut: nat)
    requires Ahead(h, job, c, p, q) && c + 1 < job.n && input == job.input && output == job.output
    requires OnTime(tick, timeout, r, t) && r1 == r + latency + 1
    modifies h`arg2, h`first, h`pending, h`half, job.output
    ensures if expired then Pipeline(h, job, c + 2, c) && !InTime(tick, timeout, r1)
            else Ahead(h, job, c + 1, pIn, pOut) && OnTime(tick, timeout, r1, next)
  {
    pIn := Order(h, p, job, input, c + 1, c);
    pOut := q;
    expired, next := WaitFrom(tick, timeout, latency, r, r1, t);
    if !expired {
      pOut := Collect(h, q, job, output, c + 2, c);
    }
  }

  /** The last reading. */
  method Finish(h: Handle, p: nat, q: nat, timeout: Word, ghost job: Job, output: array<int>, ghost c: nat,
                ghost left: nat)
    returns (status: Status)
    requires Ahead(h, job, c, p, q) && c + 1 == job.n && h.errors == {} && output == job.output
    modifies h`state, h`pending, h`half, job.output
    ensures status == Ok && Outcome(h, status, timeout, job, job.n, left)
  {
    var end := Collect(h, q, job, output, c + 1, c);
    h.state := Ready;
    status := Ok;
  }

  method Expire(h: Handle, timeout: Word, ghost job: Job, ghost stored: nat, ghost left: nat) returns (status: Status)
    requires stored + left <= job.n && Pipeline(h, job, stored + left, stored) && timeout != MAX_DELAY
    modifies h`state, h`errors
    ensures status == Error && Outcome(h, status, timeout, job, stored, left)
  {
    h.errors := {Timeout};
    h.state := Ready;
    status := Error;
  }

  /** The first order. */
  method OrderFirst(h: Handle, inBase: nat, ghost job: Job, input: array<int>) returns (pIn: nat)
    requires Pipeline(h, job, 0, 0) && job.n > 0 && Room(|job.late|, job.n) && input == job.input
      && inBase == job.inBase
    modifies h`arg2, h`first, h`pending
    ensures Ahead(h, job, 0, pIn, job.outBase)
  {
    pIn := Order(h, inBase, job, input, 0, 0);
  }

  /** One round of the polling loop, its readings counted. */
  method PollingRound(h: Handle, p: nat, q: nat, ghost job: Job, input: array<int>, output: array<int>, ghost c: nat,
                      ghost c1: nat, tick: nat -> Word, timeout: Word, ghost latency: nat -> nat, wait: nat,
                      ghost r: nat, t: nat)
    returns (expired: bool, next: nat, pIn: nat, pOut: nat, ghost r1: nat)
    requires Ahead(h, job, c, p, q) && c1 == c + 1 < job.n && input == job.input && output == job.output
    requires r == Readings(latency, c) && wait == latency(c) && OnTime(tick, timeout, r, t)
    modifies h`arg2, h`first, h`pending, h`half, job.output
    ensures r1 == Readings(latency, c1)
    ensures if expired then Pipeline(h, job, c + 2, c) && !InTime(tick, timeout, r1)
            else Ahead(h, job, c1, pIn, pOut) && OnTime(tick, timeout, r1, next)
  {
    r1 := r + wait + 1;
    expired, next, pIn, pOut := OrderWaitCollect(h, p, q, job, input, output, c, tick, timeout, wait, r, r1, t);
  }

  /** The polling loop: one calculation ahead of the one being read. */
  method LoopPolling(h: Handle, n: nat, timeout: Word, tick: nat -> Word, latency: nat -> nat, ghost job: Job,
                     input: array<int>, p: nat, output: array<int>, q: nat)
    returns (expired: bool, ghost stored: nat, pIn: nat, pOut: nat, ghost r: nat)
    requires Ahead(h, job, 0, p, q) && n == job.n && input == job.input && output == job.output
    modifies h`arg2, h`first, h`pending, h`half, job.output
    ensures if expired then stored + 2 <= n && Pipeline(h, job, stored + 2, stored)
            else stored == n - 1 && Ahead(h, job, stored, pIn, pOut)
    ensures if expired then r == Readings(latency, stored + 1) && !InTime(tick, timeout, r)
            else r == Readings(latency, stored) && InTime(tick, timeout, r)
  {
    var t, index := 1, n - 1;
    stored, r, pIn, pOut, expired := 0, 0, p, q, false;
    while index > 0
      invariant index + stored + 1 == n && Ahead(h, job, stored, pIn, pOut)
      invariant r == Readings(latency, stored) && OnTime(tick, timeout, r, t)
    {
      var round := n - 1 - index;
      expired, t, pIn, pOut, r := PollingRound(h, pIn, pOut, job, input, output, stored, stored + 1, tick, timeout,
                                               latency, latency(round), r, t);
      if expired {
        return;
      }
      index, stored := index - 1, stored + 1;
    }
  }

  /** A wait that ran out makes the whole run late; one whose waits all went well is in time. */
  lemma WholeRun(tick: nat -> Word, timeout: Word, latency: nat -> nat, k: nat, n: nat, r: nat, all: nat)
    requires k <= n && r == Readings(latency, k) && all == Readings(latency, n)
    ensures k == n ==> r == all
    ensures !InTime(tick, timeout, r) ==> !InTime(tick, timeout, all) && timeout != MAX_DELAY
  {
    if !InTime(tick, timeout, r) {
      ReadingsGrow(latency, k, n);
      LateForGood(tick, timeout, r, all);
      InTimeMeans(tick, timeout, r);
    }
  }

  /** The same, its timeout stated over all readings. */
  method LoopInTime(h: Handle, n: nat, timeout: Word, tick: nat -> Word, latency: nat -> nat, ghost job: Job,
                    input: array<int>, p: nat, output: array<int>, q: nat, ghost good: bool)
    returns (expired: bool, ghost stored: nat, pIn: nat, pOut: nat)
    requires n > 0 && good == InTime(tick, timeout, Readings(latency, n - 1))
    requires Ahead(h, job, 0, p, q) && n == job.n && input == job.input && output == job.output
    modifies h`arg2, h`first, h`pending, h`half, job.output
    ensures if expired then stored + 2 <= n && Pipeline(h, job, stored + 2, stored) && timeout != MAX_DELAY
            else stored == n - 1 && Ahead(h, job, stored, pIn, pOut)
    ensures expired <==> !good
  {
    ghost var r;
    expired, stored, pIn, pOut, r := LoopPolling(h, n, timeout, tick, latency, job, input, p, output, q);
    WholeRun(tick, timeout, latency, if expired then stored + 1 else stored, n - 1, r, Readings(latency, n - 1));
  }

  /** The rest of a call, from the first reading on. */
  method PollRest(h: Handle, n: nat, timeout: Word, tick: nat -> Word, latency: nat -> nat, ghost job: Job,
                  input: array<int>, p: nat, output: array<int>, q: nat, ghost good: bool)
    returns (status: Status, ghost stored: nat)
    requires Ahead(h, job, 0, p, q) && n == job.n && input == job.input && output == job.output && h.errors == {}
    requires good == InTime(tick, timeout, Readings(latency, n - 1))
    modifies h`state, h`errors, h`arg2, h`first, h`pending, h`half, job.output
    ensures Outcome(h, status, timeout, job, stored, 2) && (status == Ok <==> good)
  {
    var expired, pIn, pOut;
    expired, stored, pIn, pOut := LoopInTime(h, n, timeout, tick, latency, job, input, p, output, q, good);
    if expired {
      status := Expire(h, timeout, job, stored, 2);
    } else {
      status := Finish(h, pIn, pOut, timeout, job, output, stored, 2);
      stored := n;
    }
  }

  method Poll(h: Handle, n: nat, timeout: Word, tick: nat -> Word, latency: nat -> nat, ghost job: Job,
              input: array<int>, inBase: nat, output: array<int>, outBase: nat)
    returns (status: Status, ghost stored: nat)
    requires Pipeline(h, job, 0, 0) && n == job.n > 0 && h.errors == {} && Room(|job.late|, n)
    requires input == job.input && inBase == job.inBase && output == job.output && outBase == job.outBase
    modifies h`state, h`errors, h`arg2, h`first, h`pending, h`half, job.output
    ensures Outcome(h, status, timeout, job, stored, 2)
    ensures status == Ok <==> InTime(tick, timeout, Readings(latency, n - 1))
  {
    var pIn := OrderFirst(h, inBase, job, input);
    status, stored :=
      PollRest(h, n, timeout, tick, latency, job, input, pIn, output, outBase,
                               InTime(tick, timeout, Readings(latency, n - 1)));
  }

  /** Tick reading k, the ones before it being in time, of n there will be. */
  method LookAtTime(tick: nat -> Word, timeout: Word, k: nat, ghost n: nat) returns (expired: bool)
    requires 0 < k <= n && InTime(tick, timeout, k - 1)
    ensures if expired then timeout != MAX_DELAY && !InTime(tick, timeout, n) else InTime(tick, timeout, k)
  {
    expired := Expired(timeout, tick(k), tick(0));
    if expired {
      LateForGood(tick, timeout, k, n);
    }
  }

  /** One order, and one reading without waiting for the flag. */
  method OrderAndCollect(h: Handle, p: nat, q: nat, ghost job: Job, input: array<int>, output: array<int>, ghost c: nat)
    returns (pIn: nat, pOut: nat)
    requires Ahead(h, job, c, p, q) && c + 1 < job.n && input == job.input && output == job.output
    modifies h`arg2, h`first, h`pending, h`half, job.output
    ensures Ahead(h, job, c + 1, pIn, pOut)
  {
    pIn := Order(h, p, job, input, c + 1, c);
    pOut := Collect(h, q, job, output, c + 2, c);
  }

  /** The same, and a look at the time. */
  method OrderCollectLook(h: Handle, p: nat, q: nat, ghost job: Job, input: array<int>, output: array<int>,
                          ghost c: nat, tick: nat -> Word, timeout: Word, k: nat)
    returns (expired: bool, pIn: nat, pOut: nat)
    requires Ahead(h, job, c, p, q) && k < job.n && input == job.input && output == job.output
    requires k == c + 1 && InTime(tick, timeout, c)
    modifies h`arg2, h`first, h`pending, h`half, job.output
    ensures Ahead(h, job, k, pIn, pOut)
    ensures if expired then timeout != MAX_DELAY && !InTime(tick, timeout, job.n - 1) else InTime(tick, timeout, k)
  {
    pIn, pOut := OrderAndCollect(h, p, q, job, input, output, c);
    expired := LookAtTime(tick, timeout, k, job.n - 1);
  }

  /** The zero-overhead loop. */
  method LoopZeroOverhead(h: Handle, n: nat, timeout: Word, tick: nat -> Word, ghost job: Job,
                          input: array<int>, p: nat, output: array<int>, q: nat)
    returns (expired: bool, ghost stored: nat, pIn: nat, pOut: nat)
    requires Ahead(h, job, 0, p, q) && n == job.n && input == job.input && output == job.output
    modifies h`arg2, h`first, h`pending, h`half, job.output
    ensures Ahead(h, job, stored, pIn, pOut)
    ensures if expired then 0 < stored && timeout != MAX_DELAY && !InTime(tick, timeout, n - 1)
            else stored == n - 1 && InTime(tick, timeout, stored)
  {
    var index := n - 1;
    stored, pIn, pOut, expired := 0, p, q, false;
    while index > 0
      invariant index + stored + 1 == n && Ahead(h, job, stored, pIn, pOut)
      invariant InTime(tick, timeout, stored)
    {
      expired, pIn, pOut := OrderCollectLook(h, pIn, pOut, job, input, output, stored, tick, timeout, n - index);
      index, stored := index - 1, stored + 1;
      if expired {
        return;
      }
    }
  }

  method PollZeroOverhead(h: Handle, n: nat, timeout: Word, tick: nat -> Word, ghost job: Job,
                          input: array<int>, inBase: nat, output: array<int>, outBase: nat)
    returns (status: Status, ghost stored: nat)
    requires Pipeline(h, job, 0, 0) && n == job.n > 0 && h.errors == {} && Room(|job.late|, n)
    requires input == job.input && inBase == job.inBase && output == job.output && outBase == job.outBase
    modifies h`state, h`errors, h`arg2, h`first, h`pending, h`half, job.output
    ensures Outcome(h, status, timeout, job, stored, 1)
    ensures status == Ok <==> InTime(tick, timeout, n - 1)
  {
    var pIn := OrderFirst(h, inBase, job, input);
    var expired, pOut;
    expired, stored, pIn, pOut := LoopZeroOverhead(h, n, timeout, tick, job, input, pIn, output, outBase);
    if expired {
      status := Expire(h, timeout, job, stored, 1);
    } else {
      status := Finish(h, pIn, pOut, timeout, job, output, stored, 1);
      stored := n;
    }
  }

  /** The work of a call that is not refused. */
  ghost predicate Asked(h: Handle, job: Job, n: nat, input: array<int>, inBase: nat, output: array<int>, outBase: nat)
    reads h, job.input, job.output
  {
    && h.first == [] && !h.half && Describes(h, job)
    && job.input == input && job.inBase == inBase && job.output == output && job.outBase == outBase && job.n == n
  }

  lemma Starts(h: Handle, job: Job)
    requires h.first == [] && !h.half && Describes(h, job)
    ensures Pipeline(h, job, 0, 0)
  {
    assert job.src[..0] == [] && job.All([], 0) == job.late;
  }

  /** The checks common to the calls: parameters first, then the state of the handle. */
  method Admit(h: Handle, input: array?<int>, output: array?<int>, n: nat) returns (admitted: bool)
    modifies h`state, h`errors
    ensures admitted <==> !old(Refused(h, input, output, n))
    ensures if admitted then h.errors == {} && h.state == Busy
            else h.state == old(h.state) && h.errors == old(h.errors) + {RefusalOf(input, output, n)}
  {
    if input == null || output == null || n == 0 {
      h.errors := h.errors + {Param};
      return false;
    }
    if h.state != Ready {
      h.errors := h.errors + {NotReady};
      return false;
    }
    h.errors := {};
    h.state := Busy;
    return true;
  }

  /**
   HAL_CORDIC_Calculate is the plain map: result i is stored at position i and nothing is left in
   flight.  If it times out, the results stored are a correct prefix, two calculations are in
   flight and nothing else has changed; it times out exactly if one of the tick readings says so,
   which are one before each reading of the flag.
   */
  method Calculate(h: Handle, input: array?<int>, inBase: nat, output: array?<int>, outBase: nat, n: nat, timeout: Word,
                   tick: nat -> Word, latency: nat -> nat, ghost job: Job)
    returns (status: Status, ghost stored: nat)
    requires !Refused(h, input, output, n) ==> Asked(h, job, n, input, inBase, output, outBase) && Room(|h.pending|, n)
    modifies h`state, h`errors, h`arg2, h`first, h`pending, h`half, job.output
    ensures if old(Refused(h, input, output, n)) then
              status == Error
                && RefusedOnly(h, old(h.state), old(h.errors), old(h.pending), RefusalOf(input, output, n))
            else
              Outcome(h, status, timeout, job, stored, 2)
    ensures old(Refused(h, input, output, n)) ==> job.output[..] == old(job.output[..])
    ensures !old(Refused(h, input, output, n)) ==> (status == Ok <==> InTime(tick, timeout, Readings(latency, n - 1)))
  {
    status, stored := Error, 0;
    var admitted := Admit(h, input, output, n);
    if admitted {
      Starts(h, job);
      status, stored := Poll(h, n, timeout, tick, latency, job, input, inBase, output, outBase);
    }
  }

  ghost predicate RefusedOnly(h: Handle, state: State, errors: set<ErrorFlag>, pending: seq<Result>, flag: ErrorFlag)
    reads h
  {
    h.state == state && h.errors == errors + {flag} && h.pending == pending
  }

  /** HAL_CORDIC_CalculateZO is the same map; a timeout leaves one calculation in flight. */
  method CalculateZO(h: Handle, input: array?<int>, inBase: nat, output: array?<int>, outBase: nat, n: nat,
                     timeout: Word, tick: nat -> Word, ghost job: Job)
    returns (status: Status, ghost stored: nat)
    requires !Refused(h, input, output, n) ==> Asked(h, job, n, input, inBase, output, outBase) && Room(|h.pending|, n)
    modifies h`state, h`errors, h`arg2, h`first, h`pending, h`half, job.output
    ensures if old(Refused(h, input, output, n)) then
              status == Error
                && RefusedOnly(h, old(h.state), old(h.errors), old(h.pending), RefusalOf(input, output, n))
            else
              Outcome(h, status, timeout, job, stored, 1)
    ensures old(Refused(h, input, output, n)) ==> job.output[..] == old(job.output[..])
    ensures !old(Refused(h, input, output, n)) ==> (status == Ok <==> InTime(tick, timeout, n - 1))
  {
    status, stored := Error, 0;
    var admitted := Admit(h, input, output, n);
    if admitted {
      Starts(h, job);
      status, stored := PollZeroOverhead(h, n, timeout, tick, job, input, inBase, output, outBase);
    }
  }

  /**
   Without room the call never returns: before it reads anything it has a word to write to a unit
   that already holds two results.
   */
  method StalledCalculate(h: Handle, input: array<int>, inBase: nat, output: array<int>, outBase: nat, n: nat,
                          ghost job: Job)
    returns (ghost ordered: nat)
    requires h.state == Ready && n > 0 && Asked(h, job, n, input, inBase, output, outBase)
    requires |h.pending| <= 2 && !Room(|h.pending|, n)
    modifies h`state, h`errors, h`arg2, h`first, h`pending
    ensures ordered < n && Pipeline(h, job, ordered, 0) && |h.pending| == 2 && h.state == Busy
  {
    var admitted := Admit(h, input, output, n);
    Starts(h, job);
    ordered := 0;
    if |h.pending| < 2 {
      var pIn := Order(h, inBase, job, input, 0, 0);
      ordered := 1;
    }
  }

  /** A finished run has the first n results of the unit in memory, and the others still in it. */
  lemma AllStored(h: Handle, job: Job, k: nat)
    requires job.Valid() && Stream(h, job, job.src, job.n, job.n) && k < job.n
    ensures var r := job.All(job.src, job.n)[k];
            && job.output[job.outBase + if h.twoRes then 2 * k else k] == r.0
            && (h.twoRes ==> job.output[job.outBase + 2 * k + 1] == r.1)
    ensures h.pending == job.All(job.src, job.n)[job.n..] && |h.pending| == |job.late| && h.first == [] && !h.half
    ensures job.late == [] ==> h.Idle()
    ensures k >= |job.late| ==>
      var i := k - |job.late|;
      job.All(job.src, job.n)[k]
        == if h.twoArgs then h.f(job.src[2 * i], job.src[2 * i + 1]) else h.f(job.src[i], job.arg2)
  {
    assert Spread(job.twoRes, job.All(job.src, job.n)[..job.n])[Wide(job.twoRes, k)] == job.All(job.src, job.n)[k].0;
    if k >= |job.late| {
      var i := k - |job.late|;
      var args := Args(h.twoArgs, job.arg2, job.src, i);
      assert job.All(job.src, job.n)[k] == Results(job.f, job.twoArgs, job.arg2, job.src, job.n)[i]
        == h.f(args.0, args.1);
    }
  }

  /** A function whose every result differs from r in its first word. */
  function NotIn(r: Result): (int, int) -> Result {
    (x: int, y: int) => (r.0 + 1, 0)
  }

  /** With a result left over, whatever words the unit is given, some function shows that the run is not its map. */
  lemma LeftoverShows(late: seq<Result>, twoArgs: bool, twoRes: bool, arg2: int, ws: seq<int>, k: nat, src: seq<int>,
                      n: nat)
    requires late != [] && Wide(twoArgs, k) <= |ws| && Wide(twoArgs, n) <= |src| && 0 < n <= |late| + k
    ensures var f := NotIn(late[0]);
            Spread(twoRes, (late + Results(f, twoArgs, arg2, ws, k))[..n])
              != Spread(twoRes, Results(f, twoArgs, arg2, src, n))
  {
    var f := NotIn(late[0]);
    var stored, due := (late + Results(f, twoArgs, arg2, ws, k))[..n], Results(f, twoArgs, arg2, src, n);
    assert stored[0] == late[0] && due[0] == f(Args(twoArgs, arg2, src, 0).0, Args(twoArgs, arg2, src, 0).1);
    assert Spread(twoRes, stored)[0] == stored[0].0 && Spread(twoRes, due)[0] == due[0].0;
  }

  /** A run stores the map of its function over its input, whatever the function, exactly if nothing was left over. */
  lemma LeftoverExact(late: seq<Result>, twoArgs: bool, twoRes: bool, arg2: int, src: seq<int>, n: nat)
    requires n > 0 && Wide(twoArgs, n) <= |src|
    ensures (forall f: (int, int) -> Result ::
               Spread(twoRes, (late + Results(f, twoArgs, arg2, src, n))[..n])
                 == Spread(twoRes, Results(f, twoArgs, arg2, src, n)))
       <==> late == []
  {
    if late == [] {
      forall f: (int, int) -> Result
        ensures Spread(twoRes, (late + Results(f, twoArgs, arg2, src, n))[..n])
          == Spread(twoRes, Results(f, twoArgs, arg2, src, n))
      {
        assert (late + Results(f, twoArgs, arg2, src, n))[..n] == Results(f, twoArgs, arg2, src, n);
      }
    } else {
      LeftoverShows(late, twoArgs, twoRes, arg2, src, n, src, n);
    }
  }
}
