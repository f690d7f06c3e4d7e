/** One GCM message sent in several calls, and its authentication tag. */
module CrypGcmMessage {
  import opened Words
  import opened CrypCore
  import opened CrypHandle
  import opened CrypHeaderPhase
  import A = CrypAes
  import opened CrypGcm
  import opened CrypApi
  import opened CrypGcmApi
  import C = CrypChunks
  import opened CrypTag
  import opened CrypGcmPadding

  /** The bytes of the calls of a sequence, as the handle counts them. */
  function ByteSizes(unit: SizeUnit, sizes: seq<Half>): (s: seq<nat>)
    ensures |s| == |sizes| && forall i | 0 <= i < |s| :: s[i] == EffectiveSize(unit, sizes[i])
  {
    seq(|sizes|, i requires 0 <= i < |sizes| => EffectiveSize(unit, sizes[i]))
  }

  function TotalBytes(unit: SizeUnit, sizes: seq<Half>): nat {
    Total(ByteSizes(unit, sizes))
  }

  lemma TotalBytesPrefix(unit: SizeUnit, sizes: seq<Half>, j: nat)
    requires j < |sizes|
    ensures TotalBytes(unit, sizes[..j + 1]) == TotalBytes(unit, sizes[..j]) + EffectiveSize(unit, sizes[j])
    ensures TotalBytes(unit, sizes[..j + 1]) <= TotalBytes(unit, sizes)
  {
    var all := ByteSizes(unit, sizes);
    assert ByteSizes(unit, sizes[..j]) == all[..j] && ByteSizes(unit, sizes[..j + 1]) == all[..j + 1];
    TotalPrefix(all, j);
  }

  /** The bytes of a message, call by call: as given in bytes, or 4 for a word less multiples of 65536. */
  lemma TotalBytesNumbers(unit: SizeUnit, sizes: seq<Half>, next: Half)
    ensures TotalBytes(unit, []) == 0
    ensures unit == InBytes ==> TotalBytes(unit, sizes + [next]) == TotalBytes(unit, sizes) + next
    ensures unit == InWords ==>
      var bytes := TotalBytes(unit, sizes + [next]) - TotalBytes(unit, sizes);
      0 <= bytes < 0x1_0000 && 4 * next - bytes in {0, 0x1_0000, 0x2_0000, 0x3_0000}
  {
    SizeNumbers(unit, next);
    TotalBytesPrefix(unit, sizes + [next], |sizes|);
    assert (sizes + [next])[..|sizes|] == sizes && (sizes + [next])[..|sizes| + 1] == sizes + [next];
    assert ByteSizes(unit, []) == [];
  }

  /** The padding count of the last block in numbers: nothing else of the core changes for it. */
  lemma LastCoreNumbers(core: Core, direction: Direction, bytes: nat, job: GcmJob)
    requires job.Valid() && bytes == 16 * job.full.blocks + job.rest
      && job.lastCore == LastCore(core, direction, job.rest)
    ensures
      job.lastCore.mode.npblb
      == if direction == Encryption && bytes % 16 != 0 then 16 * ((bytes + 15) / 16) - bytes else core.mode.npblb
    ensures job.lastCore == core.(mode := core.mode.(npblb := job.lastCore.mode.npblb))
  {
    PaddingNumber(bytes, job.full.blocks, job.rest);
  }

  /** k whole blocks of the message are through. */
  ghost predicate Underway(h: Handle, direction: Direction, header: HeaderJob, whole: GcmJob, k: nat,
                           input: array<Word>, inBase: nat, output: array<Word>, outBase: nat)
    reads h, input, output
  {
    && MayCall(h) && h.init.configOnce && h.state == Ready && !h.locked && (h.NeedsConfig() || h.enabled)
    && HeaderPlan(h, false, direction, header)
    && whole.Valid() && k <= whole.full.blocks
    && (if h.NeedsConfig() then (k == 0 && PayloadStart(h, direction, header, whole.full))
        else (CallCore(h, direction) == whole.full.core && h.chain == whole.full.Chain(k)
              && h.din == whole.full.din0 + whole.full.src[..4 * k]))
    && whole.lastCore == LastCore(whole.full.core, direction, whole.rest)
    && Unread(whole, k, input, inBase)
    && (input == output ==> outBase <= inBase)
    && Written(output, whole.full.out0, outBase, whole.full.result[..4 * k])
  }

  ghost predicate Unread(whole: GcmJob, k: nat, input: array<Word>, inBase: nat)
    requires whole.Valid() && k <= whole.full.blocks
    reads input
  {
    && A.HoldsFrom(input, inBase, whole.full.src, 4 * k)
    && A.Holds(input, inBase + |whole.full.src|, whole.tail)
  }

  /** The part of the message from block k, of n blocks and, if it is the last part, its tail. */
  ghost function Part(whole: GcmJob, k: nat, n: nat, last: bool, out1: seq<Word>): (part: GcmJob)
    requires whole.Valid() && k + n <= whole.full.blocks
    ensures part.Valid() && part.full.blocks == n && part.full.core == whole.full.core
  {
    var full := whole.full;
    var rest := if last then whole.rest else 0;
    GcmJob(A.MakeJob(full.core, full.Chain(k), full.src[4 * k..4 * (k + n)], (16 * n + rest) / 4,
                     full.din0 + full.src[..4 * k], out1),
           rest, if last then whole.tail else [], if last then whole.lastCore else full.core)
  }

  /** A part produces, sends and leaves what it does within the whole. */
  lemma PartFacts(whole: GcmJob, k: nat, n: nat, last: bool, out1: seq<Word>)
    requires whole.Valid() && k + n <= whole.full.blocks && (last ==> k + n == whole.full.blocks)
    ensures var part := Part(whole, k, n, last, out1);
            && part.full.Chain(n) == whole.full.Chain(k + n)
            && whole.full.result[..4 * k] + part.full.result == whole.full.result[..4 * (k + n)]
            && part.full.din0 + part.full.src == whole.full.din0 + whole.full.src[..4 * (k + n)]
  {
    var part := Part(whole, k, n, last, out1);
    C.ExtendMessage(whole.full.core, whole.full.chain, whole.full.src, k, n);
    Extend(whole.full.din0, whole.full.src, 4 * k, 4 * (k + n));
    PartResult(whole, k, n, part);
  }

  lemma PartResult(whole: GcmJob, k: nat, n: nat, part: GcmJob)
    requires whole.Valid() && part.Valid() && k + n <= whole.full.blocks && part.full.blocks == n
    requires part.full.core == whole.full.core && part.full.chain == whole.full.Chain(k)
    requires part.full.src == whole.full.src[4 * k..4 * (k + n)]
    ensures whole.full.result[..4 * k] + part.full.result == whole.full.result[..4 * (k + n)]
  {
    C.ExtendMessage(whole.full.core, whole.full.chain, whole.full.src, k, n);
    whole.full.ValidMeansOutput(k);
    whole.full.ValidMeansOutput(k + n);
    part.full.ValidMeansOutput(n);
    TakeAll(part.full.result);
  }

  lemma LastPartFacts(whole: GcmJob, k: nat, n: nat, out1: seq<Word>)
    requires whole.Valid() && k + n == whole.full.blocks
    ensures var part := Part(whole, k, n, true, out1);
            && part.FinalChain() == whole.FinalChain()
            && whole.full.result[..4 * k] + part.Produced() == whole.Produced()
            && part.full.din0 + part.Sent() == whole.full.din0 + whole.Sent()
  {
    var part := Part(whole, k, n, true, out1);
    PartFacts(whole, k, n, true, out1);
    TakeAll(whole.full.src);
    TakeAll(whole.full.result);
    assert part.Padded() == whole.Padded();
    if whole.rest == 0 {
      assert part.Produced() == part.full.result && part.Sent() == part.full.src;
    } else {
      var s := whole.tail + Zeros(4 - |whole.tail|);
      assert part.full.din0 + (part.full.src + s) == (part.full.din0 + part.full.src) + s;
    }
  }

  lemma PartIsPlanned(h: Handle, direction: Direction, header: HeaderJob, whole: GcmJob, k: nat, n: nat, last: bool,
                      bytes: nat, input: array<Word>, inBase: nat, inNext: nat, output: array<Word>, outBase: nat,
                      outNext: nat)
    requires Underway(h, direction, header, whole, k, input, inBase, output, outBase)
    requires inNext == inBase + 4 * k && outNext == outBase + 4 * k
    requires k + n <= whole.full.blocks && (last ==> k + n == whole.full.blocks)
    requires bytes == 16 * n + if last then whole.rest else 0
    ensures var part := Part(whole, k, n, last, output[..]);
            && Plan(h, false, direction, bytes, input, inNext, output, outNext, header, part) && part.Bytes() == bytes
            && outNext + |part.full.src| + |part.tail| == outBase + 4 * (k + n) + if last then |whole.tail| else 0
  {
    assert whole.full.din0 + whole.full.src[..0] == whole.full.din0;
  }

  /** The running sum after a call is the sum of the sizes so far, modulo 2^32. */
  lemma SumAccumulates(before: nat, bytes: nat, first: bool, sum: nat)
    requires bytes < 0x1_0000 && if first then before == 0 else sum == before % 0x1_0000_0000
    ensures NextSum(first, sum, bytes) == (before + bytes) % 0x1_0000_0000
  {
  }

  /** The next part of a message, whose output goes behind what is done and makes it out1. */
  ghost predicate Due(h: Handle, direction: Direction, bytes: nat, header: HeaderJob, part: GcmJob,
                      input: array<Word>, inNext: nat, output: array<Word>, outNext: nat,
                      outBase: nat, out0: seq<Word>, done: seq<Word>, out1: seq<Word>)
    reads h, input, output
  {
    && Plan(h, false, direction, bytes, input, inNext, output, outNext, header, part) && part.Bytes() == bytes
    && outNext == outBase + |done| && Written(output, out0, outBase, done)
    && out1 == done + part.Produced()[..|part.full.src| + |part.tail|]
    && outNext + |part.full.src| + |part.tail| <= output.Length
  }

  /** One call on a part of the message. */
  method CallPart(h: Handle, direction: Direction, size: Half, ghost header: HeaderJob, ghost part: GcmJob,
                  input: array<Word>, inNext: nat, output: array<Word>, outNext: nat,
                  ghost outBase: nat, ghost out0: seq<Word>, ghost done: seq<Word>, ghost out1: seq<Word>)
    requires MayCall(h) && h.init.configOnce && h.state == Ready && !h.locked && (h.NeedsConfig() || h.enabled)
    requires Due(h, direction, EffectiveSize(h.init.dataUnit, size), header, part, input, inNext, output, outNext,
                 outBase, out0, done, out1)
    modifies h, output
    ensures MayCall(h) && h.state == Ready && !h.locked && h.enabled && h.Engine() == part.lastCore
    ensures h.chain == part.FinalChain() && h.din == part.full.din0 + part.Sent()
    ensures Counts(h, part.Bytes(), old(Finds(h)))
    ensures Written(output, out0, outBase, out1)
    ensures forall j | inNext + |part.full.src| + |part.tail| <= j < input.Length :: input[j] == old(input[j])
  {
    ghost var buffer1 := output[..];
    var status := GcmCrypt(h, direction, input, inNext, size, output, outNext, header, part);
    WrittenTwice(output, buffer1, out0, outBase, done, part.Produced()[..|part.full.src| + |part.tail|]);
  }

  lemma NoTail(part: GcmJob)
    requires part.Valid() && part.rest == 0
    ensures part.Produced()[..|part.full.src| + |part.tail|] == part.full.result
    ensures part.Sent() == part.full.src && part.FinalChain() == part.full.Chain(part.full.blocks)
    ensures part.Bytes() == 16 * part.full.blocks
  {
    assert part.full.result[..|part.full.result|] == part.full.result;
  }

  /** The part of the message that the next n blocks are, as its call sees it and within the whole. */
  lemma NextPart(h: Handle, direction: Direction, header: HeaderJob, whole: GcmJob, k: nat, n: nat, bytes: nat,
                 input: array<Word>, inBase: nat, inNext: nat, output: array<Word>, outBase: nat, outNext: nat)
    returns (part: GcmJob, done: seq<Word>, out1: seq<Word>)
    requires Underway(h, direction, header, whole, k, input, inBase, output, outBase)
    requires inNext == inBase + 4 * k && outNext == outBase + 4 * k
    requires k + n <= whole.full.blocks && bytes == 16 * n && outBase + 4 * whole.full.blocks <= output.Length
    ensures Due(h, direction, bytes, header, part, input, inNext, output, outNext, outBase, whole.full.out0, done, out1)
    ensures out1 == whole.full.result[..4 * (k + n)] && part.lastCore == whole.full.core
    ensures |part.full.src| + |part.tail| == 4 * n && part.FinalChain() == whole.full.Chain(k + n)
    ensures part.full.din0 + part.Sent() == whole.full.din0 + whole.full.src[..4 * (k + n)]
  {
    part := Part(whole, k, n, false, output[..]);
    done, out1 := whole.full.result[..4 * k], whole.full.result[..4 * (k + n)];
    PartIsPlanned(h, direction, header, whole, k, n, false, bytes, input, inBase, inNext, output, outBase, outNext);
    PartFacts(whole, k, n, false, output[..]);
    NoTail(part);
  }

  /** One call on whole blocks. */
  method NextCall(h: Handle, direction: Direction, size: Half, ghost header: HeaderJob, ghost whole: GcmJob,
                  ghost k: nat, ghost n: nat, ghost bytes: nat,
                  input: array<Word>, inBase: nat, inNext: nat, output: array<Word>, outBase: nat, outNext: nat)
    requires Underway(h, direction, header, whole, k, input, inBase, output, outBase)
    requires inNext == inBase + 4 * k && outNext == outBase + 4 * k
    requires EffectiveSize(h.init.dataUnit, size) == bytes == 16 * n && k + n <= whole.full.blocks
    requires outBase + 4 * whole.full.blocks <= output.Length
    modifies h, output
    ensures Underway(h, direction, header, whole, k + n, input, inBase, output, outBase)
    ensures Counts(h, bytes, old(Finds(h)))
  {
    ghost var part, done, out1 :=
      NextPart(h, direction, header, whole, k, n, bytes, input, inBase, inNext, output, outBase, outNext);
    ghost var input0 := input[..];
    CallPart(h, direction, size, header, part, input, inNext, output, outNext, outBase, whole.full.out0, done, out1);
    StillUnread(whole, k, n, input, input0, inBase);
    Advanced(h, direction, header, whole, k + n, input, inBase, output, outBase);
  }

  lemma StillUnread(whole: GcmJob, k: nat, n: nat, input: array<Word>, input0: seq<Word>, inBase: nat)
    requires whole.Valid() && k + n <= whole.full.blocks && |input0| == input.Length
    requires inBase + |whole.full.src| + |whole.tail| <= |input0|
    requires forall j | inBase + 4 * k <= j < inBase + |whole.full.src| :: input0[j] == whole.full.src[j - inBase]
    requires var at := inBase + |whole.full.src|; forall j | at <= j < at + |whole.tail| ::
      input0[j] == whole.tail[j - at]
    requires forall j | inBase + 4 * k + 4 * n <= j < input.Length :: input[j] == input0[j]
    ensures Unread(whole, k + n, input, inBase)
  {
  }

  /** What the handle looks like further on in the message. */
  lemma Advanced(h: Handle, direction: Direction, header: HeaderJob, whole: GcmJob, k: nat,
                 input: array<Word>, inBase: nat, output: array<Word>, outBase: nat)
    requires MayCall(h) && h.init.configOnce && h.keyIvConfigured && h.state == Ready && !h.locked && h.enabled
    requires whole.Valid() && k <= whole.full.blocks
      && whole.lastCore == LastCore(whole.full.core, direction, whole.rest)
    requires h.Engine() == whole.full.core && whole.full.core.mode.direction == direction
    requires h.chain == whole.full.Chain(k) && h.din == whole.full.din0 + whole.full.src[..4 * k]
    requires Unread(whole, k, input, inBase) && (input == output ==> outBase <= inBase)
    requires Written(output, whole.full.out0, outBase, whole.full.result[..4 * k])
    ensures Underway(h, direction, header, whole, k, input, inBase, output, outBase)
  {
  }

  /** The last call, which may end in a partial block. */
  method LastCall(h: Handle, direction: Direction, size: Half, ghost header: HeaderJob, ghost whole: GcmJob,
                  ghost k: nat, ghost n: nat, ghost bytes: nat,
                  input: array<Word>, inBase: nat, inNext: nat, output: array<Word>, outBase: nat, outNext: nat)
    requires Underway(h, direction, header, whole, k, input, inBase, output, outBase)
    requires inNext == inBase + 4 * k && outNext == outBase + 4 * k
    requires EffectiveSize(h.init.dataUnit, size) == bytes == 16 * n + whole.rest && k + n == whole.full.blocks
    requires outBase + |whole.full.src| + |whole.tail| <= output.Length
    modifies h, output
    ensures GcmResult(h, whole, |whole.full.src| + |whole.tail|, output, outBase)
    ensures Counts(h, bytes, old(Finds(h)))
  {
    ghost var part, done, out1 :=
      FinalPart(h, direction, header, whole, k, n, bytes, input, inBase, inNext, output, outBase, outNext);
    CallPart(h, direction, size, header, part, input, inNext, output, outNext, outBase, whole.full.out0, done, out1);
  }

  /** The part of the message that is left. */
  lemma FinalPart(h: Handle, direction: Direction, header: HeaderJob, whole: GcmJob, k: nat, n: nat, bytes: nat,
                  input: array<Word>, inBase: nat, inNext: nat, output: array<Word>, outBase: nat, outNext: nat)
    returns (part: GcmJob, done: seq<Word>, out1: seq<Word>)
    requires Underway(h, direction, header, whole, k, input, inBase, output, outBase)
    requires inNext == inBase + 4 * k && outNext == outBase + 4 * k
    requires k + n == whole.full.blocks && bytes == 16 * n + whole.rest
    requires outBase + |whole.full.src| + |whole.tail| <= output.Length
    ensures Due(h, direction, bytes, header, part, input, inNext, output, outNext, outBase, whole.full.out0, done, out1)
    ensures |whole.full.src| + |whole.tail| <= |whole.Produced()|
      && out1 == whole.Produced()[..|whole.full.src| + |whole.tail|]
    ensures part.lastCore == whole.lastCore
    ensures part.FinalChain() == whole.FinalChain() && part.full.din0 + part.Sent() == whole.full.din0 + whole.Sent()
  {
    part := Part(whole, k, n, true, output[..]);
    done, out1 := whole.full.result[..4 * k], whole.Produced()[..|whole.full.src| + |whole.tail|];
    PartIsPlanned(h, direction, header, whole, k, n, true, bytes, input, inBase, inNext, output, outBase, outNext);
    LastPartFacts(whole, k, n, output[..]);
    TakeBehind(whole.Produced(), done, part.Produced(), |part.full.src| + |part.tail|);
  }

  /** What the handle counts and has loaded once calls of `total` bytes are through. */
  ghost predicate Counted(h: Handle, begun: bool, total: nat, loads: seq<Load>)
    reads h
  {
    if begun then h.keyIvConfigured && h.loads == loads && h.messagePhase == Process
      && h.sizesSum == total % 0x1_0000_0000
    else h.NeedsConfig() && h.loads + h.StartLoads() == loads && total == 0
  }

  /** What a call finds, if so many bytes are through. */
  ghost predicate FindsCounted(was: Found, begun: bool, total: nat, loads: seq<Load>) {
    && was.first == !begun && was.loads == loads
    && if begun then was.phase == Process && was.sum == total % 0x1_0000_0000 else total == 0
  }

  lemma CountOn(h: Handle, was: Found, begun: bool, before: nat, bytes: nat, loads: seq<Load>)
    requires h.init.configOnce && bytes < 0x1_0000 && Counts(h, bytes, was) && FindsCounted(was, begun, before, loads)
    ensures Counted(h, true, before + bytes, loads)
  {
    SumAccumulates(before, bytes, !begun, was.sum);
  }

  /** One call of whole blocks, and what has been counted. */
  method OneOfBlocks(h: Handle, direction: Direction, size: Half, input: array<Word>, inBase: nat, output: array<Word>,
                     outBase: nat, ghost header: HeaderJob, ghost whole: GcmJob, ghost loads: seq<Load>,
                     ghost begun: bool, k: nat)
    returns (k': nat)
    requires EffectiveSize(h.init.dataUnit, size) % 16 == 0
    requires Underway(h, direction, header, whole, k, input, inBase, output, outBase)
      && Counted(h, begun, 16 * k, loads)
    requires 16 * k + EffectiveSize(h.init.dataUnit, size) < 16 * whole.full.blocks + 16
    requires outBase + 4 * whole.full.blocks <= output.Length
    modifies h, output
    ensures 16 * k' == 16 * k + EffectiveSize(h.init.dataUnit, size) && k' <= whole.full.blocks
    ensures Underway(h, direction, header, whole, k', input, inBase, output, outBase)
      && Counted(h, true, 16 * k', loads)
  {
    var n := EffectiveSize(h.init.dataUnit, size) / 16;
    ghost var was := Finds(h);
    NextCall(h, direction, size, header, whole, k, n, 16 * n,
             input, inBase, inBase + 4 * k, output, outBase, outBase + 4 * k);
    CountOn(h, was, begun, 16 * k, 16 * n, loads);
    k' := k + n;
  }

  /** All calls before one with a partial block. */
  method SendBlocks(h: Handle, direction: Direction, sizes: seq<Half>, input: array<Word>, inBase: nat,
                    output: array<Word>, outBase: nat, ghost header: HeaderJob, ghost whole: GcmJob,
                    ghost loads: seq<Load>)
    returns (k: nat)
    requires forall i | 0 <= i < |sizes| :: EffectiveSize(h.init.dataUnit, sizes[i]) % 16 == 0
    requires Underway(h, direction, header, whole, 0, input, inBase, output, outBase)
    requires Counted(h, false, 0, loads)
    requires TotalBytes(h.init.dataUnit, sizes) < 16 * whole.full.blocks + 16
    requires outBase + 4 * whole.full.blocks <= output.Length
    modifies h, output
    ensures 16 * k == TotalBytes(h.init.dataUnit, sizes) && k <= whole.full.blocks
    ensures Underway(h, direction, header, whole, k, input, inBase, output, outBase)
    ensures Counted(h, sizes != [], 16 * k, loads)
  {
    k := 0;
    for j := 0 to |sizes|
      invariant 16 * k == TotalBytes(h.init.dataUnit, sizes[..j]) && k <= whole.full.blocks
      invariant Underway(h, direction, header, whole, k, input, inBase, output, outBase)
      invariant Counted(h, j != 0, 16 * k, loads)
    {
      TotalBytesPrefix(h.init.dataUnit, sizes, j);
      k := OneOfBlocks(h, direction, sizes[j], input, inBase, output, outBase, header, whole, loads, j != 0, k);
    }
    TakeAll(sizes);
  }

  /** The message is through, and calls without payload may still come. */
  ghost predicate AllThrough(h: Handle, direction: Direction, whole: GcmJob, output: array<Word>, outBase: nat,
                             total: nat, loads: seq<Load>)
    reads h, output
  {
    && whole.Valid() && GcmResult(h, whole, |whole.full.src| + |whole.tail|, output, outBase) && MayCall(h)
    && h.direction == direction && h.init.configOnce && Counted(h, true, total, loads)
  }

  /** The work of a call without payload. */
  lemma NoWork(h: Handle, direction: Direction, header: HeaderJob, whole: GcmJob, input: array<Word>, inAt: nat,
               output: array<Word>, outBase: nat, outAt: nat, total: nat, loads: seq<Load>) returns (job: GcmJob)
    requires AllThrough(h, direction, whole, output, outBase, total, loads)
    requires inAt <= input.Length && (input == output ==> outAt <= inAt)
    ensures Plan(h, false, direction, 0, input, inAt, output, outAt, header, job)
    ensures job.Valid() && job.full.out0 == output[..] && |job.full.src| + |job.tail| == 0
      && job.lastCore == whole.lastCore
    ensures job.FinalChain() == whole.FinalChain() && job.full.din0 + job.Sent() == whole.full.din0 + whole.Sent()
  {
    job := PayloadOf(CallCore(h, direction), h.chain, h.din, direction, 0, input, inAt, output, outAt);
    assert job.full.src == [] && job.tail == [];
  }

  /** A call without payload leaves everything as it is. */
  method EmptyCall(h: Handle, direction: Direction, size: Half, ghost header: HeaderJob, ghost whole: GcmJob,
                   input: array<Word>, inAt: nat, output: array<Word>, ghost outBase: nat, outAt: nat,
                   ghost total: nat, ghost loads: seq<Load>)
    requires AllThrough(h, direction, whole, output, outBase, total, loads) && EffectiveSize(h.init.dataUnit, size) == 0
    requires inAt <= input.Length && outAt <= output.Length && (input == output ==> outAt <= inAt)
    modifies h, output
    ensures AllThrough(h, direction, whole, output, outBase, total, loads)
  {
    ghost var job := NoWork(h, direction, header, whole, input, inAt, output, outBase, outAt, total, loads);
    ghost var sum := h.sizesSum;
    var status := GcmCrypt(h, direction, input, inAt, size, output, outAt, header, job);
    SumAccumulates(total, 0, false, sum);
    assert forall j | 0 <= j < output.Length :: output[j] == job.full.out0[j];
  }

  /**
   GCM chunking: a new message sent in any number of polling calls, of sizes that leave no seam,
   leaves exactly what one call on the whole message would: the same output, the same DIN words,
   hash, and sum of sizes, with one load of key and vector and one header.
   */
  method SendMessage(h: Handle, direction: Direction, sizes: seq<Half>, input: array<Word>, inBase: nat,
                     output: array<Word>, outBase: nat, ghost header: HeaderJob, ghost whole: GcmJob)
    requires MayCall(h) && h.init.configOnce && h.NeedsConfig() && h.state == Ready && !h.locked
    requires sizes != [] && Seamless(ByteSizes(h.init.dataUnit, sizes))
    requires Plan(h, false, direction, TotalBytes(h.init.dataUnit, sizes), input, inBase, output, outBase, header,
                  whole)
    requires outBase + |whole.full.src| + |whole.tail| <= output.Length
    modifies h, output
    ensures GcmResult(h, whole, |whole.full.src| + |whole.tail|, output, outBase)
    ensures h.keyIvConfigured && h.messagePhase == Process
    ensures h.loads == old(h.loads) + [KeyLoad(h.init.key), VectorLoad(h.init.iv)]
    ensures h.sizesSum == TotalBytes(h.init.dataUnit, sizes) % 0x1_0000_0000
    ensures
      var bytes := TotalBytes(h.init.dataUnit, sizes);
      whole.lastCore.mode.npblb
      == if direction == Encryption && bytes % 16 != 0 then 16 * ((bytes + 15) / 16) - bytes else 0
  {
    ghost var total, loads := TotalBytes(h.init.dataUnit, sizes), h.loads + h.StartLoads();
    var last := LastPayload(ByteSizes(h.init.dataUnit, sizes));
    Begins(h, direction, sizes, last, input, inBase, output, outBase, header, whole);
    SendPayload(h, direction, sizes, last, input, inBase, output, outBase, header, whole, loads);
    var end := Quads(TotalBytes(h.init.dataUnit, sizes));
    SendNothing(h, direction, sizes[last + 1..], header, whole, input, inBase + end, output, outBase, outBase + end,
                total, loads);
  }

  /** Calls without payload. */
  method SendNothing(h: Handle, direction: Direction, sizes: seq<Half>, ghost header: HeaderJob, ghost whole: GcmJob,
                     input: array<Word>, inAt: nat, output: array<Word>, ghost outBase: nat, outAt: nat,
                     ghost total: nat, ghost loads: seq<Load>)
    requires AllThrough(h, direction, whole, output, outBase, total, loads)
    requires forall j | 0 <= j < |sizes| :: EffectiveSize(h.init.dataUnit, sizes[j]) == 0
    requires inAt <= input.Length && outAt <= output.Length && (input == output ==> outAt <= inAt)
    modifies h, output
    ensures AllThrough(h, direction, whole, output, outBase, total, loads)
  {
    for j := 0 to |sizes|
      invariant AllThrough(h, direction, whole, output, outBase, total, loads)
    {
      EmptyCall(h, direction, sizes[j], header, whole, input, inAt, output, outBase, outAt, total, loads);
    }
  }

  lemma Begins(h: Handle, direction: Direction, sizes: seq<Half>, last: nat, input: array<Word>, inBase: nat,
               output: array<Word>, outBase: nat, header: HeaderJob, whole: GcmJob)
    requires MayCall(h) && h.init.configOnce && h.NeedsConfig() && h.state == Ready && !h.locked
    requires Plan(h, false, direction, TotalBytes(h.init.dataUnit, sizes), input, inBase, output, outBase, header,
                  whole)
    requires var all := ByteSizes(h.init.dataUnit, sizes); last < |sizes| && Total(all[..last + 1]) == Total(all)
    requires outBase + |whole.full.src| + |whole.tail| <= output.Length
    ensures Underway(h, direction, header, whole, 0, input, inBase, output, outBase)
    ensures Counted(h, false, 0, h.loads + h.StartLoads())
    ensures whole.Bytes() == TotalBytes(h.init.dataUnit, sizes)
         == TotalBytes(h.init.dataUnit, sizes[..last]) + EffectiveSize(h.init.dataUnit, sizes[last])
    ensures Quads(whole.Bytes()) == |whole.full.src| + |whole.tail|
    ensures
      var bytes := TotalBytes(h.init.dataUnit, sizes);
      whole.lastCore.mode.npblb
      == if direction == Encryption && bytes % 16 != 0 then 16 * ((bytes + 15) / 16) - bytes else 0
  {
    LastCoreNumbers(whole.full.core, direction, TotalBytes(h.init.dataUnit, sizes), whole);
    assert ByteSizes(h.init.dataUnit, sizes)[..last + 1] == ByteSizes(h.init.dataUnit, sizes[..last + 1]);
    TotalBytesPrefix(h.init.dataUnit, sizes, last);
    WordsOf(whole.full.blocks, whole.rest);
  }

  /** All calls up to the last one with payload. */
  method SendPayload(h: Handle, direction: Direction, sizes: seq<Half>, last: nat, input: array<Word>, inBase: nat,
                     output: array<Word>, outBase: nat, ghost header: HeaderJob, ghost whole: GcmJob,
                     ghost loads: seq<Load>)
    requires Underway(h, direction, header, whole, 0, input, inBase, output, outBase) && Counted(h, false, 0, loads)
    requires last < |sizes| && forall i | 0 <= i < last :: EffectiveSize(h.init.dataUnit, sizes[i]) % 16 == 0
    requires whole.Bytes() == TotalBytes(h.init.dataUnit, sizes[..last]) + EffectiveSize(h.init.dataUnit, sizes[last])
    requires outBase + |whole.full.src| + |whole.tail| <= output.Length
    modifies h, output
    ensures AllThrough(h, direction, whole, output, outBase, whole.Bytes(), loads)
  {
    var k := SendBlocks(h, direction, sizes[..last], input, inBase, output, outBase, header, whole, loads);
    ghost var bytes := EffectiveSize(h.init.dataUnit, sizes[last]);
    ghost var was := Finds(h);
    LastCall(h, direction, sizes[last], header, whole, k, whole.full.blocks - k, bytes,
             input, inBase, inBase + 4 * k, output, outBase, outBase + 4 * k);
    CountOn(h, was, last != 0, 16 * k, bytes, loads);
  }

  /**
   A whole authenticated message: the payload as above, then the length block, whose payload length
   is that of all calls together and which is the standard's whenever both lengths fit in 32 bits.
   */
  method SendAndTag(h: Handle, direction: Direction, sizes: seq<Half>, input: array<Word>, inBase: nat,
                    output: array<Word>, outBase: nat, tag: array<Word>, ghost header: HeaderJob, ghost whole: GcmJob)
    returns (status: Status)
    requires MayCall(h) && h.init.configOnce && h.NeedsConfig() && h.state == Ready && !h.locked
    requires sizes != [] && Seamless(ByteSizes(h.init.dataUnit, sizes))
    requires Plan(h, false, direction, TotalBytes(h.init.dataUnit, sizes), input, inBase, output, outBase, header,
                  whole)
    requires outBase + |whole.full.src| + |whole.tail| <= output.Length
    requires h.init.headerSize < 0x1_0000_0000 && tag.Length >= 4 && tag != output
    modifies h, output, tag
    ensures status == Ok && h.state == Ready && !h.locked && h.messagePhase == Final
    ensures Written(output, whole.full.out0, outBase, whole.Produced()[..|whole.full.src| + |whole.tail|])
    ensures var headerBits, total := HeaderBits(h.init.headerUnit, h.init.headerSize),
      TotalBytes(h.init.dataUnit, sizes);
            var block := LengthBlock(headerBits, total % 0x1_0000_0000);
            && h.din == whole.full.din0 + whole.Sent() + block.Words()
            && tag[..4] == FinalOf(whole.lastCore).Out(whole.FinalChain(), block).Words()
            && (headerBits < 0x1_0000_0000 && 8 * total < 0x1_0000_0000 ==>
                 block == NistLengthBlock(headerBits, 8 * total))
    ensures
      var bytes := TotalBytes(h.init.dataUnit, sizes);
      whole.lastCore.mode.npblb
      == if direction == Encryption && bytes % 16 != 0 then 16 * ((bytes + 15) / 16) - bytes else 0
  {
    LastCoreNumbers(whole.full.core, direction, TotalBytes(h.init.dataUnit, sizes), whole);
    if 8 * TotalBytes(h.init.dataUnit, sizes) < 0x1_0000_0000 {
      LengthBlockExact(h.init.headerUnit, h.init.headerSize, TotalBytes(h.init.dataUnit, sizes));
    }
    SendMessage(h, direction, sizes, input, inBase, output, outBase, header, whole);
    status := GenerateAuthTag(h, tag);
  }

  /** A core turned to the final phase, which always encrypts. */
  function FinalOf(core: Core): Core {
    core.(mode := core.mode.(direction := Encryption, phase := FinalPhase))
  }
}
