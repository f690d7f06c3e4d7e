/** The CORDIC driver in interrupt mode. */
module CordicIt {
  import opened Words
  import opened Cordic

  /**
   The counters and pointers once c results are collected and i calculations are ordered, or about to be by
   the call.
   */
  ghost predicate Counters(h: Handle, job: Job, i: nat, c: nat)
    reads h`toGet, h`toOrder, h`inBuff, h`pIn, h`outBuff, h`pOut
  {
    && i <= job.n && c <= job.n && h.toGet == job.n - c && h.toOrder == job.n - i
    && h.inBuff == job.input && h.outBuff == job.output
    && h.pIn == job.inBase + Wide(job.twoArgs, i) && h.pOut == job.outBase + Wide(job.twoRes, c)
  }

  /** An interrupt may read a result and order a calculation: the unit has room for it, and no argument gets lost. */
  ghost predicate Runs(h: Handle, job: Job, ws: seq<int>, k: nat, c: nat)
    reads h, job.input, job.output
  {
    && h.state == Busy && h.interrupt && job.Valid() && Stream(h, job, ws, k, c)
  }

  /** What may be left over: two results while the call has not written anything, then one. */
  predicate Bearable(job: Job, words: nat, c: nat) {
    words <= Wide(job.twoArgs, c + 1) && |job.late| <= if words == Wide(job.twoArgs, c) then 2 else 1
  }

  /**
   A call under way: c results are collected and the unit was given the words ws, which are k whole
   calculations.  Counters and pointers stand as if the first calculation were ordered, although
   interrupts may come while the call has still to write its words.
   */
  ghost predicate Serving(h: Handle, job: Job, ws: seq<int>, k: nat, c: nat)
    reads h, job.input, job.output
  {
    && Runs(h, job, ws, k, c) && c < job.n && c <= k <= c + 1 && Bearable(job, |ws|, c)
    && Counters(h, job, c + 1, c) && Unread(job, c + 1)
  }

  /** A result is read, the next calculation, if any, still to be ordered. */
  ghost predicate Between(h: Handle, job: Job, ws: seq<int>, k: nat, c: nat, c1: nat)
    reads h, job.input, job.output
  {
    && Runs(h, job, ws, k, c1) && c1 == c + 1 <= job.n && c <= k <= c1 && Bearable(job, |ws|, c)
    && Counters(h, job, c1, c1) && Unread(job, c1)
  }

  /** All results are collected, perhaps before the call has written its own words. */
  ghost predicate Done(h: Handle, job: Job, ws: seq<int>, k: nat)
    reads h, job.input, job.output
  {
    && h.state == Ready && !h.interrupt && h.toGet == h.toOrder == 0 && job.Valid()
    && Stream(h, job, ws, k, job.n) && job.n <= k + 1 && k <= job.n
  }

  ghost predicate Standing(h: Handle, job: Job, ws: seq<int>, k: nat, c: nat)
    reads h, job.input, job.output
  {
    c <= job.n && if c < job.n then Serving(h, job, ws, k, c) else Done(h, job, ws, k)
  }

  method TakeResult(h: Handle, ghost job: Job, ghost ws: seq<int>, ghost k: nat, ghost c: nat, ghost c1: nat)
    requires Serving(h, job, ws, k, c) && h.pending != [] && c1 == c + 1
    modifies h`toGet, h`pOut, h`pending, h`half, job.output
    ensures Between(h, job, ws, k, c, c1)
  {
    h.toGet := h.toGet - 1;
    h.pOut := StoreNext(h, h.outBuff, h.pOut, job, ws, k, c, c1);
  }

  /** A result, and where the next one goes. */
  method StoreNext(h: Handle, output: array<int>, p: nat, ghost job: Job, ghost ws: seq<int>, ghost k: nat,
                   ghost c: nat, ghost c1: nat)
    returns (next: nat)
    requires job.Valid() && Stream(h, job, ws, k, c) && h.pending != [] && c1 == c + 1 <= job.n && Unread(job, c1)
    requires output == job.output && p == job.outBase + Wide(job.twoRes, c)
    modifies h`pending, h`half, job.output
    ensures Stream(h, job, ws, k, c1) && Unread(job, c1) && next == job.outBase + Wide(job.twoRes, c1)
  {
    next := Store(h, output, p, job, ws, k, c);
  }

  /** The words of one calculation. */
  function WordsOf(job: Job, i: nat): seq<int>
    requires |job.src| == Wide(job.twoArgs, job.n) && i < job.n
  {
    job.src[Wide(job.twoArgs, i)..Wide(job.twoArgs, i + 1)]
  }

  lemma WordsAre(job: Job, input: array<int>, p: nat, i: nat)
    requires job.Valid() && i < job.n && Unread(job, i) && input == job.input && p == job.inBase + Wide(job.twoArgs, i)
    ensures p + Wide(job.twoArgs, 1) <= input.Length && input[p..p + Wide(job.twoArgs, 1)] == WordsOf(job, i)
  {
  }

  /** What the handler's next order does to the unit. */
  method FeedNext(h: Handle, input: array<int>, p: nat, ghost job: Job, ghost ws: seq<int>, ghost k: nat, ghost c: nat,
                  ghost ws1: seq<int>, ghost k1: nat, ghost c1: nat)
    returns (next: nat)
    requires job.Valid() && Stream(h, job, ws, k, c1) && c1 == c + 1 && c1 < job.n && c <= k <= c1
      && Bearable(job, |ws|, c)
    requires ws1 == ws + WordsOf(job, c1) && k1 == k + 1
    requires Unread(job, c1) && input == job.input && p == job.inBase + Wide(job.twoArgs, c1)
    modifies h`arg2, h`first, h`pending
    ensures Stream(h, job, ws1, k1, c1) && Bearable(job, |ws1|, c1)
    ensures Unread(job, c1 + 1) && next == job.inBase + Wide(job.twoArgs, c1 + 1)
  {
    WordsAre(job, input, p, c1);
    assert |h.pending| == |job.late| + k - c1;
    next := Feed(h, input, p, job, ws, k, c1);
  }

  method OrderNext(h: Handle, ghost job: Job, ghost ws: seq<int>, ghost k: nat, ghost c: nat,
                   ghost ws1: seq<int>, ghost k1: nat, ghost c1: nat)
    requires Between(h, job, ws, k, c, c1) && c1 < job.n && ws1 == ws + WordsOf(job, c1) && k1 == k + 1
    modifies h`toOrder, h`pIn, h`arg2, h`first, h`pending
    ensures Serving(h, job, ws1, k1, c1)
  {
    h.toOrder := h.toOrder - 1;
    h.pIn := FeedNext(h, h.inBuff, h.pIn, job, ws, k, c, ws1, k1, c1);
  }

  /** The run is over: ready, and the callback. */
  method Complete(h: Handle, ghost job: Job, ghost ws: seq<int>, ghost k: nat, ghost c: nat)
    requires Between(h, job, ws, k, c, job.n)
    modifies h`interrupt, h`state, h`cplt
    ensures Done(h, job, ws, k) && h.cplt == old(h.cplt) + 1
  {
    h.interrupt := false;
    h.state := Ready;
    h.cplt := h.cplt + 1;
  }

  /**
   A run of the handler that finds a result: it collects it and orders the next calculation; the last one
   calls back.
   */
  method UsefulRun(h: Handle, ghost job: Job, ghost ws: seq<int>, ghost k: nat, ghost c: nat, ghost c1: nat)
    returns (ghost ws1: seq<int>, ghost k1: nat)
    requires Serving(h, job, ws, k, c) && h.pending != [] && c1 == c + 1
    modifies h`toGet, h`pOut, h`toOrder, h`pIn, h`arg2, h`first, h`pending, h`half, h`interrupt, h`state, h`cplt,
      job.output
    ensures if c1 < job.n then ws1 == ws + WordsOf(job, c1) && k1 == k + 1 && Serving(h, job, ws1, k1, c1)
            else ws1 == ws && k1 == k && Done(h, job, ws, k)
    ensures h.cplt == old(h.cplt) + if c1 == job.n then 1 else 0
  {
    TakeResult(h, job, ws, k, c, c1);
    ws1, k1 := ws, k;
    if h.toOrder > 0 {
      ws1, k1 := ws + WordsOf(job, c1), k + 1;
      OrderNext(h, job, ws, k, c, ws1, k1, c1);
    }
    if h.toGet == 0 {
      Complete(h, job, ws, k, c);
    }
  }

  /**
   HAL_CORDIC_IRQHandler, run with the result-ready flag at rrdy: each useful run collects one
   result and orders the next; the last one ends the run and calls the callback.
   */
  method IrqHandler(h: Handle, rrdy: bool, ghost job: Job, ghost ws: seq<int>, ghost k: nat, ghost c: nat)
    returns (ghost ws1: seq<int>, ghost k1: nat, ghost c1: nat)
    requires Standing(h, job, ws, k, c) && (rrdy ==> h.pending != [])
    modifies h, job.output
    ensures if c == job.n || !rrdy then
              && ws1 == ws && k1 == k && c1 == c && h.cplt == old(h.cplt)
              && h.pending == old(h.pending) && job.output[..] == old(job.output[..])
            else
              && c1 == c + 1 && ws1 == ws + (if c1 < job.n then WordsOf(job, c1) else [])
              && k1 == (if c1 < job.n then k + 1 else k)
              && h.cplt == old(h.cplt) + if c1 == job.n then 1 else 0
    ensures Standing(h, job, ws1, k1, c1)
  {
    ws1, k1, c1 := ws, k, c;
    if h.interrupt {
      if rrdy {
        c1 := c + 1;
        ws1, k1 := UsefulRun(h, job, ws, k, c, c1);
      }
    }
  }

  /** The interrupts at which a result was ready. */
  function Served(flags: seq<bool>): nat {
    if flags == [] then 0 else Served(flags[..|flags| - 1]) + if flags[|flags| - 1] then 1 else 0
  }

  /** The words of the calculations that the handler orders while it collects results c to c1. */
  function Ordered(job: Job, c: nat, c1: nat): seq<int>
    requires |job.src| == Wide(job.twoArgs, job.n) && c <= c1
  {
    job.src[Wide(job.twoArgs, Min(c + 1, job.n))..Wide(job.twoArgs, Min(c1 + 1, job.n))]
  }

  /** The results collected once `served` interrupts found one, c being collected before: an idle unit never has one. */
  function Collected(job: Job, k: nat, c: nat, served: nat): nat {
    if |job.late| + k == c then c else Min(c + served, job.n)
  }

  /** From c results and the words ws on, `served` interrupts lead to c1 results and the words ws1. */
  ghost predicate Leads(job: Job, ws: seq<int>, k: nat, c: nat, served: nat, ws1: seq<int>, k1: nat, c1: nat) {
    && |job.src| == Wide(job.twoArgs, job.n) && c <= c1 <= job.n && c1 == Collected(job, k, c, served)
    && ws1 == ws + Ordered(job, c, c1) && k1 + Min(c, job.n - 1) == k + Min(c1, job.n - 1)
  }

  lemma OrderedOn(job: Job, c: nat, c1: nat)
    requires |job.src| == Wide(job.twoArgs, job.n) && c <= c1 && c1 + 1 < job.n
    ensures Ordered(job, c, c1) + WordsOf(job, c1 + 1) == Ordered(job, c, c1 + 1)
  {
    Join(job.src, Wide(job.twoArgs, c + 1), Wide(job.twoArgs, c1 + 1), Wide(job.twoArgs, c1 + 2));
  }

  lemma NoneOrdered(job: Job, c: nat, c1: nat)
    requires |job.src| == Wide(job.twoArgs, job.n) && c <= c1 && c1 + 1 == job.n
    ensures Ordered(job, c, c1) == Ordered(job, c, c1 + 1)
  {
  }

  /** What one more interrupt makes of it. */
  lemma LeadsOn(job: Job, ws: seq<int>, k: nat, c: nat, served: nat, ws1: seq<int>, k1: nat, c1: nat, flag: bool,
                ws2: seq<int>, k2: nat, c2: nat)
    requires Leads(job, ws, k, c, served, ws1, k1, c1) && c1 <= |job.late| + k1
    requires if c1 == job.n || !flag || |job.late| + k1 == c1 then ws2 == ws1 && k2 == k1 && c2 == c1
             else
               && c2 == c1 + 1 && ws2 == ws1 + (if c2 < job.n then WordsOf(job, c2) else [])
               && k2 == if c2 < job.n then k1 + 1 else k1
    ensures Leads(job, ws, k, c, served + (if flag then 1 else 0), ws2, k2, c2)
  {
    if c2 == c1 + 1 && c2 < job.n {
      OrderedOn(job, c, c1);
      Associate(ws, Ordered(job, c, c1), WordsOf(job, c2));
    } else if c2 == c1 + 1 {
      NoneOrdered(job, c, c1);
    }
  }

  lemma InFlight(h: Handle, job: Job, ws: seq<int>, k: nat, c: nat)
    requires Standing(h, job, ws, k, c)
    ensures job.Valid() && c <= |job.late| + k && |h.pending| == |job.late| + k - c && h.interrupt == (c < job.n)
  {
  }

  /** The handle after that, and whether it has called back since cplt. */
  ghost predicate Reached(h: Handle, job: Job, ws: seq<int>, k: nat, c: nat, served: nat, cplt: nat, ws1: seq<int>,
                          k1: nat, c1: nat)
    reads h, job.input, job.output
  {
    && Standing(h, job, ws1, k1, c1) && Leads(job, ws, k, c, served, ws1, k1, c1)
    && h.cplt == cplt + if c < c1 == job.n then 1 else 0
  }

  lemma AtOnce(h: Handle, job: Job, ws: seq<int>, k: nat, c: nat)
    requires Standing(h, job, ws, k, c)
    ensures Reached(h, job, ws, k, c, 0, h.cplt, ws, k, c)
  {
    InFlight(h, job, ws, k, c);
    assert Ordered(job, c, c) == [];
  }

  /** One interrupt of a sequence. */
  method Interrupt(h: Handle, flag: bool, ghost job: Job, ghost ws: seq<int>, ghost k: nat, ghost c: nat,
                   ghost served: nat, ghost cplt: nat, ghost ws1: seq<int>, ghost k1: nat, ghost c1: nat)
    returns (ghost ws2: seq<int>, ghost k2: nat, ghost c2: nat)
    requires Reached(h, job, ws, k, c, served, cplt, ws1, k1, c1)
    modifies h, job.output
    ensures Reached(h, job, ws, k, c, served + (if flag then 1 else 0), cplt, ws2, k2, c2)
  {
    InFlight(h, job, ws1, k1, c1);
    ws2, k2, c2 := IrqHandler(h, flag && h.pending != [], job, ws1, k1, c1);
    LeadsOn(job, ws, k, c, served, ws1, k1, c1, flag, ws2, k2, c2);
  }

  lemma ServedOn(flags: seq<bool>, j: nat)
    requires j < |flags|
    ensures Served(flags[..j + 1]) == Served(flags[..j]) + if flags[j] then 1 else 0
  {
    assert flags[..j + 1][..j] == flags[..j];
  }

  /**
   Any sequence of interrupts: each that finds a result ready collects one, up to n; with the last the
   handle is ready and the callback is called, once.  Interrupts after that change nothing.
   */
  method Run(h: Handle, flags: seq<bool>, ghost job: Job, ghost ws: seq<int>, ghost k: nat, ghost c: nat)
    returns (ghost ws1: seq<int>, ghost k1: nat, ghost c1: nat)
    requires Standing(h, job, ws, k, c)
    modifies h, job.output
    ensures Reached(h, job, ws, k, c, Served(flags), old(h.cplt), ws1, k1, c1)
  {
    AtOnce(h, job, ws, k, c);
    ghost var cplt, served := h.cplt, 0;
    ws1, k1, c1 := ws, k, c;
    for j := 0 to |flags|
      invariant served == Served(flags[..j]) && Reached(h, job, ws, k, c, served, cplt, ws1, k1, c1)
    {
      ServedOn(flags, j);
      ws1, k1, c1 := Interrupt(h, flags[j], job, ws, k, c, served, cplt, ws1, k1, c1);
      served := served + if flags[j] then 1 else 0;
    }
    TakeAll(flags);
  }

  // The call

  /** Counters, pointers and the interrupt enable, before anything is written. */
  method Prime(h: Handle, input: array<int>, inBase: nat, output: array<int>, outBase: nat, n: nat, ghost job: Job)
    requires h.state == Busy && Asked(h, job, n, input, inBase, output, outBase) && n > 0 && |h.pending| <= 2
    modifies h`inBuff, h`pIn, h`outBuff, h`pOut, h`toOrder, h`toGet, h`interrupt
    ensures Serving(h, job, [], 0, 0)
  {
    Starts(h, job);
    assert job.src[..0] == [];
    h.inBuff, h.pIn := input, if h.twoArgs then inBase + 2 else inBase + 1;
    h.outBuff, h.pOut := output, outBase;
    h.toOrder := n - 1;
    h.toGet := n;
    h.interrupt := true;
  }

  /**
   The call's next word finds room exactly with at most one result left over, or with two and everything
   collected.
   */
  lemma RoomForOwn(h: Handle, job: Job, ws: seq<int>, k: nat, c: nat)
    requires Standing(h, job, ws, k, c) && job.n > 0 && k == Min(c, job.n - 1) && |job.late| <= 2
    ensures |h.pending| < 2 <==> |job.late| <= 1 || c == job.n
  {
    InFlight(h, job, ws, k, c);
  }

  lemma OwnFits(job: Job, words: nat, words1: nat, k: nat, k1: nat, c: nat)
    requires Wide(job.twoArgs, k) <= words < Wide(job.twoArgs, k + 1) && words1 == words + 1
      && k1 == Completed(job.twoArgs, words, k)
    requires k == Min(c, job.n - 1) && c <= job.n && (c < job.n ==> |job.late| <= 1)
    ensures c < job.n ==> c <= k1 <= c + 1 && Bearable(job, words1, c)
    ensures c == job.n ==> job.n <= k1 + 1 && k1 <= job.n
  {
  }

  /** A word of the call's own calculation. */
  method WriteOwn(h: Handle, w: int, ghost job: Job, ghost ws: seq<int>, ghost k: nat, ghost c: nat,
                  ghost ws1: seq<int>, ghost k1: nat)
    requires Standing(h, job, ws, k, c) && job.n > 0 && k == Min(c, job.n - 1)
    requires |job.late| <= 1 || (|job.late| == 2 && c == job.n)
    requires ws1 == ws + [w] && k1 == Completed(job.twoArgs, |ws|, k)
    modifies h`arg2, h`first, h`pending
    ensures Standing(h, job, ws1, k1, c)
  {
    RoomForOwn(h, job, ws, k, c);
    OwnFits(job, |ws|, |ws1|, k, k1, c);
    FeedWord(h, w, job, ws, k, c);
  }

  /**
   The call wrote the words `own`, the first after a results were collected and, with two of them,
   the second after c; the handler ordered the calculations in between.
   */
  ghost predicate Launched(job: Job, before: nat, between: nat, a: nat, own: seq<int>, ws: seq<int>, k: nat, c: nat) {
    && |job.src| == Wide(job.twoArgs, job.n) && job.n > 0 && |own| == Wide(job.twoArgs, 1)
    && a == Collected(job, 0, 0, before) && k == Min(c, job.n - 1) + 1
    && if job.twoArgs then
         && c == Collected(job, Min(a, job.n - 1), a, between) && a <= c
         && ws == Ordered(job, 0, a) + [own[0]] + Ordered(job, a, c) + [own[1]]
       else
         c == a && ws == Ordered(job, 0, a) + [own[0]]
  }

  /** As long as no result is collected the output is untouched. */
  lemma Untouched(h: Handle, job: Job, ws: seq<int>, k: nat)
    requires Standing(h, job, ws, k, 0)
    ensures job.output[..] == job.out0
  {
  }

  /** Some interrupts, which leave the input alone unless they write results over it. */
  method RunFirst(h: Handle, flags: seq<bool>, input: array<int>, ghost job: Job, ghost ws: seq<int>, ghost k: nat,
                  ghost c: nat)
    returns (ghost ws1: seq<int>, ghost k1: nat, ghost c1: nat)
    requires Standing(h, job, ws, k, c)
    modifies h, job.output
    ensures Reached(h, job, ws, k, c, Served(flags), old(h.cplt), ws1, k1, c1)
    ensures input != job.output || c1 == 0 ==> input[..] == old(input[..])
  {
    if c == 0 {
      Untouched(h, job, ws, k);
    }
    ws1, k1, c1 := Run(h, flags, job, ws, k, c);
    if c1 == 0 {
      Untouched(h, job, ws1, k1);
    }
  }

  /** Some interrupts, and then a word of the call's own. */
  method RunAndWrite(h: Handle, flags: seq<bool>, input: array<int>, p: nat, ghost job: Job, ghost ws: seq<int>,
                     ghost k: nat, ghost c: nat, ghost served: nat)
    returns (ghost ws0: seq<int>, ghost k0: nat, ghost w: int, ghost ws1: seq<int>, ghost k1: nat, ghost c1: nat)
    requires Standing(h, job, ws, k, c) && job.n > 0 && k == Min(c, job.n - 1) && p < input.Length
    requires served == Served(flags) && (|job.late| <= 1 || (|job.late| == 2 && Collected(job, k, c, served) == job.n))
    modifies h, job.output
    ensures Leads(job, ws, k, c, served, ws0, k0, c1) && ws1 == ws0 + [w] && k1 == Completed(job.twoArgs, |ws0|, k0)
    ensures Standing(h, job, ws1, k1, c1) && h.cplt == old(h.cplt) + if c < c1 == job.n then 1 else 0
    ensures input != job.output || c1 == 0 ==> w == old(input[..])[p]
  {
    ws0, k0, c1 := RunFirst(h, flags, input, job, ws, k, c);
    w := input[..][p];
    ws1, k1 := ws0 + [w], Completed(job.twoArgs, |ws0|, k0);
    WriteOwn(h, input[p], job, ws0, k0, c1, ws1, k1);
  }

  /** The first of two own words is written, after a results were collected. */
  ghost predicate HalfLaunched(job: Job, before: nat, a: nat, w: int, ws: seq<int>, k: nat) {
    && |job.src| == Wide(job.twoArgs, job.n) && job.n > 0 && job.twoArgs
    && a == Collected(job, 0, 0, before) && ws == Ordered(job, 0, a) + [w] && k == Min(a, job.n - 1)
  }

  lemma OneWritten(job: Job, before: nat, between: nat, a: nat, w: int, ws0: seq<int>, k0: nat, ws: seq<int>, k: nat)
    requires job.Valid() && job.n > 0 && Leads(job, [], 0, 0, before, ws0, k0, a)
    requires ws == ws0 + [w] && k == Completed(job.twoArgs, |ws0|, k0)
    ensures if job.twoArgs then HalfLaunched(job, before, a, w, ws, k)
      else Launched(job, before, between, a, [w], ws, k, a)
  {
    assert ws0 == Ordered(job, 0, a) && |ws0| == Wide(job.twoArgs, Min(a, job.n - 1));
  }

  lemma TwoWritten(job: Job, before: nat, between: nat, a: nat, w: int, w1: int, ws: seq<int>, k: nat,
                   ws0: seq<int>, k0: nat, ws1: seq<int>, k1: nat, c: nat)
    requires job.Valid() && HalfLaunched(job, before, a, w, ws, k) && Leads(job, ws, k, a, between, ws0, k0, c)
    requires ws1 == ws0 + [w1] && k1 == Completed(job.twoArgs, |ws0|, k0)
    ensures Launched(job, before, between, a, [w, w1], ws1, k1, c)
  {
    assert |Ordered(job, 0, a)| + |Ordered(job, a, c)| == 2 * Min(c, job.n - 1);
  }

  /** The first of the call's own words, interrupts coming before. */
  method WriteFirst(h: Handle, input: array<int>, inBase: nat, before: seq<bool>, ghost served: nat, ghost between: nat,
                    ghost job: Job)
    returns (ghost a: nat, ghost w: int, ghost ws: seq<int>, ghost k: nat)
    requires Serving(h, job, [], 0, 0) && inBase < input.Length && served == Served(before)
    requires |job.late| <= 1 || (|job.late| == 2 && served >= job.n)
    modifies h, job.output
    ensures Standing(h, job, ws, k, a) && a == Collected(job, 0, 0, served)
    ensures if job.twoArgs then HalfLaunched(job, served, a, w, ws, k)
      else Launched(job, served, between, a, [w], ws, k, a)
    ensures h.cplt == old(h.cplt) + if a == job.n then 1 else 0
    ensures input != job.output || a == 0 ==> w == old(input[..])[inBase]
  {
    ghost var ws0, k0;
    ws0, k0, w, ws, k, a := RunAndWrite(h, before, input, inBase, job, [], 0, 0, served);
    OneWritten(job, served, between, a, w, ws0, k0, ws, k);
  }

  /** The second, interrupts coming in between. */
  method WriteSecond(h: Handle, input: array<int>, p: nat, between: seq<bool>, ghost before: nat, ghost served: nat,
                     ghost job: Job, ghost a: nat, ghost w: int, ghost ws: seq<int>, ghost k: nat)
    returns (ghost w1: int, ghost ws1: seq<int>, ghost k1: nat, ghost c: nat)
    requires Standing(h, job, ws, k, a) && HalfLaunched(job, before, a, w, ws, k) && p < input.Length
      && served == Served(between)
    requires |job.late| <= 1 || (|job.late| == 2 && a == job.n)
    modifies h, job.output
    ensures Standing(h, job, ws1, k1, c) && Launched(job, before, served, a, [w, w1], ws1, k1, c)
    ensures h.cplt == old(h.cplt) + if a < c == job.n then 1 else 0
    ensures input != job.output || c == 0 ==> w1 == old(input[..])[p]
  {
    ghost var ws0, k0;
    ws0, k0, w1, ws1, k1, c := RunAndWrite(h, between, input, p, job, ws, k, a, served);
    TwoWritten(job, before, served, a, w, w1, ws, k, ws0, k0, ws1, k1, c);
  }

  /** All of the call's own words. */
  method Launch(h: Handle, input: array<int>, inBase: nat, before: seq<bool>, between: seq<bool>, ghost job: Job,
                ghost args: seq<int>)
    returns (ghost a: nat, ghost own: seq<int>, ghost ws: seq<int>, ghost k: nat, ghost c: nat)
    requires Serving(h, job, [], 0, 0) && inBase + Wide(job.twoArgs, 1) <= input.Length
    requires args == input[inBase..inBase + Wide(job.twoArgs, 1)]
    requires |job.late| <= 1 || (|job.late| == 2 && Served(before) >= job.n)
    modifies h, job.output
    ensures Standing(h, job, ws, k, c) && Launched(job, Served(before), Served(between), a, own, ws, k, c)
    ensures h.cplt == old(h.cplt) + if c == job.n then 1 else 0
    ensures input != job.output || c == 0 ==> own == args
  {
    ghost var s0, s1 := Served(before), Served(between);
    ghost var w, w1, ws0, k0;
    assert args == if h.twoArgs then [input[..][inBase], input[..][inBase + 1]] else [input[..][inBase]];
    a, w, ws0, k0 := WriteFirst(h, input, inBase, before, s0, s1, job);
    c, own, ws, k := a, [w], ws0, k0;
    if h.twoArgs {
      w1, ws, k, c := WriteSecond(h, input, inBase + 1, between, s0, s1, job, a, w, ws0, k0);
      own := [w, w1];
    }
  }

  /** The call once it is accepted. */
  method Start(h: Handle, input: array<int>, inBase: nat, output: array<int>, outBase: nat, n: nat,
               before: seq<bool>, between: seq<bool>, ghost job: Job)
    returns (ghost a: nat, ghost own: seq<int>, ghost ws: seq<int>, ghost k: nat, ghost c: nat)
    requires h.state == Busy && n > 0 && Asked(h, job, n, input, inBase, output, outBase)
    requires |h.pending| <= 1 || (|h.pending| == 2 && Served(before) >= n)
    modifies h, job.output
    ensures Standing(h, job, ws, k, c) && Launched(job, Served(before), Served(between), a, own, ws, k, c)
    ensures h.cplt == old(h.cplt) + if c == n then 1 else 0
    ensures input != output || c == 0 ==> own == job.src[..Wide(job.twoArgs, 1)]
  {
    ghost var args := job.src[..Wide(job.twoArgs, 1)];
    TakeWithin(input[..], inBase, inBase + |job.src|, Wide(job.twoArgs, 1));
    Prime(h, input, inBase, output, outBase, n, job);
    a, own, ws, k, c := Launch(h, input, inBase, before, between, job, args);
  }

  /**
   HAL_CORDIC_Calculate_IT.  The interrupt is enabled before the first calculation is ordered, so
   with a result left over the handler may run, and order others, before and between the call's
   own words.
   */
  method CalculateIt(h: Handle, input: array?<int>, inBase: nat, output: array?<int>, outBase: nat, n: nat,
                     before: seq<bool>, between: seq<bool>, ghost job: Job)
    returns (status: Status, ghost a: nat, ghost own: seq<int>, ghost ws: seq<int>, ghost k: nat, ghost c: nat)
    requires !Refused(h, input, output, n) ==>
      && Asked(h, job, n, input, inBase, output, outBase)
      && (|h.pending| <= 1 || (|h.pending| == 2 && Served(before) >= n))
    modifies h, job.output
    ensures if old(Refused(h, input, output, n)) then
              && status == Error
              && RefusedOnly(h, old(h.state), old(h.errors), old(h.pending), RefusalOf(input, output, n))
              && h.interrupt == old(h.interrupt) && h.toGet == old(h.toGet) && job.output[..] == old(job.output[..])
            else
              && status == Ok && Standing(h, job, ws, k, c)
              && Launched(job, Served(before), Served(between), a, own, ws, k, c)
              && h.cplt == old(h.cplt) + (if c == n then 1 else 0)
              && (input != output || c == 0 ==> own == job.src[..Wide(job.twoArgs, 1)])
  {
    a, own, ws, k, c := 0, [], [], 0, 0;
    var admitted := Admit(h, input, output, n);
    if !admitted {
      return Error, a, own, ws, k, c;
    }
    a, own, ws, k, c := Start(h, input, inBase, output, outBase, n, before, between, job);
    status := Ok;
  }

  /** From an idle unit nothing comes before the call's own words, and the words are the input in order. */
  lemma InOrder(job: Job, before: nat, between: nat, a: nat, own: seq<int>, ws: seq<int>, k: nat, c: nat,
                served: nat, ws1: seq<int>, k1: nat, c1: nat)
    requires job.late == [] && Launched(job, before, between, a, own, ws, k, c)
    requires own == job.src[..Wide(job.twoArgs, 1)] && Leads(job, ws, k, c, served, ws1, k1, c1)
    ensures c == 0 && c1 == Min(served, job.n) && k1 == Min(c1 + 1, job.n) && ws1 == job.src[..Wide(job.twoArgs, k1)]
  {
    assert Ordered(job, 0, 0) == [];
    assert ws == own;
  }

  /** The interrupts that find a result during the call, with one left over. */
  function Found(two: bool, before: seq<bool>, between: seq<bool>): nat {
    Served(before) + if two then Served(between) else 0
  }

  /** With a result left over every interrupt before the last result finds one. */
  lemma AllServed(job: Job, before: nat, between: nat, a: nat, own: seq<int>, ws: seq<int>, k: nat, c: nat,
                  served: nat, ws1: seq<int>, k1: nat, c1: nat)
    requires job.late != [] && Launched(job, before, between, a, own, ws, k, c)
      && Leads(job, ws, k, c, served, ws1, k1, c1)
    ensures c1 == Min(before + (if job.twoArgs then between else 0) + served, job.n) && k1 == Min(c1 + 1, job.n)
  {
  }

  lemma Outcome(job: Job, before: nat, between: nat, a: nat, own: seq<int>, ws: seq<int>, k: nat, c: nat,
                served: nat, ws1: seq<int>, k1: nat, c1: nat, found: nat)
    requires Launched(job, before, between, a, own, ws, k, c) && Leads(job, ws, k, c, served, ws1, k1, c1)
    requires found == before + if job.twoArgs then between else 0
    requires job.late == [] && c == 0 ==> own == job.src[..Wide(job.twoArgs, 1)]
    ensures job.late == [] ==>
      c1 == Min(served, job.n) && k1 == Min(c1 + 1, job.n) && ws1 == job.src[..Wide(job.twoArgs, k1)]
    ensures job.late != [] ==> c1 == Min(found + served, job.n)
    ensures c1 == job.n ==> k1 == job.n && (job.late == [] ==> ws1 == job.src)
  {
    if job.late == [] {
      InOrder(job, before, between, a, own, ws, k, c, served, ws1, k1, c1);
      TakeAll(job.src);
    } else {
      AllServed(job, before, between, a, own, ws, k, c, served, ws1, k1, c1);
    }
  }

  /**
   A call and any interrupts: from an idle unit, after n of them found a result and not before, the
   output is the map.  With a result left over it is the call's first result, and the unit is left
   with another one in the end.
   */
  method CalculateAndServe(h: Handle, input: array<int>, inBase: nat, output: array<int>, outBase: nat, n: nat,
                           before: seq<bool>, between: seq<bool>, flags: seq<bool>, ghost job: Job)
    returns (ghost ws: seq<int>, ghost k: nat, ghost c: nat)
    requires h.state == Ready && n > 0 && Asked(h, job, n, input, inBase, output, outBase)
    requires |h.pending| <= 1 || (|h.pending| == 2 && Served(before) >= n)
    modifies h, job.output
    ensures Standing(h, job, ws, k, c) && h.cplt == old(h.cplt) + if c == n then 1 else 0
    ensures job.late == [] ==> c == Min(Served(flags), n) && k == Min(c + 1, n) && ws == job.src[..Wide(job.twoArgs, k)]
    ensures job.late != [] ==> c == Min(Found(job.twoArgs, before, between) + Served(flags), n)
    ensures c == n ==> k == n && |h.pending| == |job.late| && (job.late == [] ==> ws == job.src)
  {
    ghost var a, own, ws0, k0, c0;
    a, own, ws0, k0, c0, ws, k, c := CallAndRun(h, input, inBase, output, outBase, n, before, between, flags, job);
    ghost var found, served := Found(job.twoArgs, before, between), Served(flags);
    Outcome(job, Served(before), Served(between), a, own, ws0, k0, c0, served, ws, k, c, found);
  }

  method CallAndRun(h: Handle, input: array<int>, inBase: nat, output: array<int>, outBase: nat, n: nat,
                    before: seq<bool>, between: seq<bool>, flags: seq<bool>, ghost job: Job)
    returns (ghost a: nat, ghost own: seq<int>, ghost ws0: seq<int>, ghost k0: nat, ghost c0: nat,
             ghost ws: seq<int>, ghost k: nat, ghost c: nat)
    requires h.state == Ready && n > 0 && Asked(h, job, n, input, inBase, output, outBase)
    requires |h.pending| <= 1 || (|h.pending| == 2 && Served(before) >= n)
    modifies h, job.output
    ensures Launched(job, Served(before), Served(between), a, own, ws0, k0, c0)
    ensures Leads(job, ws0, k0, c0, Served(flags), ws, k, c)
    ensures Standing(h, job, ws, k, c) && h.cplt == old(h.cplt) + if c == n then 1 else 0
    ensures input != output || c0 == 0 ==> own == job.src[..Wide(job.twoArgs, 1)]
    ensures |h.pending| == |job.late| + k - c
  {
    var status;
    status, a, own, ws0, k0, c0 := CalculateIt(h, input, inBase, output, outBase, n, before, between, job);
    ws, k, c := Run(h, flags, job, ws0, k0, c0);
    InFlight(h, job, ws, k, c);
  }
}
