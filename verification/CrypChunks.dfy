/** One AES message sent in several calls, the key and vector configured once. */
module CrypChunks {
  import opened Words
  import opened CrypCore
  import opened CrypHandle
  import opened CrypAes
  import opened CrypApi

  /** k blocks of the message are through and n more follow. */
  lemma ExtendMessage(core: Core, chain: Chain, src: seq<Word>, k: nat, n: nat)
    requires 4 * (k + n) <= |src|
    ensures var next := src[4 * k..4 * (k + n)];
            && ChainAfter(core, chain, src, k + n) == ChainAfter(core, ChainAfter(core, chain, src, k), next, n)
            && Output(core, chain, src, k + n) == Output(core, chain, src, k)
                 + Output(core, ChainAfter(core, chain, src, k), next, n)
  {
    var done, next := src[..4 * k], src[4 * k..4 * (k + n)];
    Extend([], src, 4 * k, 4 * (k + n));
    ExtendBy(core, chain, src, done, next, k, n);
  }

  lemma ExtendBy(core: Core, chain: Chain, src: seq<Word>, done: seq<Word>, next: seq<Word>, k: nat, n: nat)
    requires |done| == 4 * k && |next| == 4 * n && 4 * (k + n) <= |src|
    requires src[..4 * k] == done && src[..4 * (k + n)] == done + next
    ensures ChainAfter(core, chain, src, k + n) == ChainAfter(core, ChainAfter(core, chain, src, k), next, n)
    ensures Output(core, chain, src, k + n) == Output(core, chain, src, k)
      + Output(core, ChainAfter(core, chain, src, k), next, n)
  {
    Split(core, chain, done, next, k, n);
    OnlyPrefixMatters(core, chain, src, done + next, k + n);
    OnlyPrefixMatters(core, chain, src, done, k);
  }

  /** A whole message: its core, chaining state and words, and DIN and the output buffer before. */
  datatype Message = Message(core: Core, chain: Chain, src: seq<Word>, din0: seq<Word>, out0: seq<Word>)

  /** k blocks of the message are through. */
  ghost predicate Underway(h: Handle, m: Message, k: nat, input: array<Word>, inBase: nat, output: array<Word>,
                           outBase: nat)
    reads h, input, output
  {
    && 4 * k <= |m.src|
    && h.state == Ready && !h.locked && h.Drained()
    && CallCore(h, m.core.mode.direction) == m.core && h.StartChain() == ChainAfter(m.core, m.chain, m.src, k)
    && h.din == m.din0 + m.src[..4 * k]
    && outBase + |m.src| <= output.Length && (input == output ==> outBase <= inBase)
    && HoldsFrom(input, inBase, m.src, 4 * k)
    && Written(output, m.out0, outBase, Output(m.core, m.chain, m.src, k))
  }

  /** One call on n whole blocks, in the unit the handle is configured for. */
  method CallOnBlocks(h: Handle, direction: Direction, n: nat, input: array<Word>, inBase: nat, output: array<Word>,
                      outBase: nat, ghost core: Core, ghost chain: Chain, ghost src: seq<Word>)
    requires h.init.algorithm == Ecb || h.init.algorithm == Cbc || h.init.algorithm == Ctr
    requires n < 4096 && h.state == Ready && !h.locked && h.Drained()
    requires inBase + 4 * n <= input.Length && outBase + 4 * n <= output.Length
      && (input == output ==> outBase <= inBase)
    requires core == CallCore(h, direction) && chain == h.StartChain() && src == input[inBase..inBase + 4 * n]
    modifies h, output
    ensures h.state == Ready && !h.locked && h.Drained() && h.Engine() == core
    ensures h.keyIvConfigured == (h.init.configOnce || old(h.keyIvConfigured))
      && h.loads == old(h.loads + h.StartLoads())
    ensures h.chain == ChainAfter(core, chain, src, n) && h.din == old(h.din) + src
    ensures Written(output, old(output[..]), outBase, Output(core, chain, src, n))
  {
    var size := if h.init.dataUnit == InWords then 4 * n else 16 * n;
    ghost var out := Output(core, chain, src, n);
    BlocksIn(h.init.dataUnit, n);
    TakeAll(out);
    var status := AesCrypt(h, direction, input, inBase, size, output, outBase);
    assert Written(output, old(output[..]), outBase, out);
  }

  /** The same behind what is done already. */
  method CallBehind(h: Handle, direction: Direction, n: nat, input: array<Word>, inBase: nat, output: array<Word>,
                    outBase: nat, ghost core: Core, ghost chain: Chain, ghost src: seq<Word>, ghost base: nat,
                    ghost done: seq<Word>, ghost out0: seq<Word>, ghost out1: seq<Word>)
    requires h.init.algorithm == Ecb || h.init.algorithm == Cbc || h.init.algorithm == Ctr
    requires n < 4096 && h.state == Ready && !h.locked && h.Drained()
    requires inBase + 4 * n <= input.Length && outBase + 4 * n <= output.Length
      && (input == output ==> outBase <= inBase)
    requires core == CallCore(h, direction) && chain == h.StartChain() && src == input[inBase..inBase + 4 * n]
    requires outBase == base + |done| && Written(output, out0, base, done) && out1 == done + Output(core, chain, src, n)
    modifies h, output
    ensures h.state == Ready && !h.locked && h.Drained() && h.Engine() == core
    ensures h.keyIvConfigured == (h.init.configOnce || old(h.keyIvConfigured))
      && h.loads == old(h.loads + h.StartLoads())
    ensures h.chain == ChainAfter(core, chain, src, n) && h.din == old(h.din) + src
    ensures Written(output, out0, base, out1)
    ensures forall j | inBase + 4 * n <= j < input.Length :: input[j] == old(input[j])
  {
    ghost var buffer1 := output[..];
    CallOnBlocks(h, direction, n, input, inBase, output, outBase, core, chain, src);
    WrittenTwice(output, buffer1, out0, base, done, Output(core, chain, src, n));
  }

  lemma BlocksIn(unit: SizeUnit, n: nat)
    requires n < 4096
    ensures EffectiveSize(unit, if unit == InWords then 4 * n else 16 * n) == 16 * n
    ensures Blocks(16 * n) == n && 16 * n / 4 == 4 * n
  {
  }

  /** The next n blocks are where they are expected, and extend what is done. */
  lemma NextFacts(h: Handle, m: Message, k: nat, n: nat, input: array<Word>, inBase: nat, output: array<Word>,
                  outBase: nat)
    requires Underway(h, m, k, input, inBase, output, outBase) && 4 * (k + n) <= |m.src|
    ensures var next, chain := m.src[4 * k..4 * (k + n)], ChainAfter(m.core, m.chain, m.src, k);
            && input[inBase + 4 * k..inBase + 4 * (k + n)] == next
            && h.din + next == m.din0 + m.src[..4 * (k + n)]
            && ChainAfter(m.core, m.chain, m.src, k + n) == ChainAfter(m.core, chain, next, n)
            && Output(m.core, m.chain, m.src, k + n) == Output(m.core, m.chain, m.src, k)
                 + Output(m.core, chain, next, n)
  {
    ExtendMessage(m.core, m.chain, m.src, k, n);
    Extend(m.din0, m.src, 4 * k, 4 * (k + n));
    SliceIs(input, inBase, m.src, 4 * k, 4 * (k + n));
  }

  lemma SliceIs(input: array<Word>, inBase: nat, src: seq<Word>, a: nat, b: nat)
    requires a <= b <= |src| && HoldsFrom(input, inBase, src, a)
    ensures input[inBase + a..inBase + b] == src[a..b]
  {
  }

  /** The next n blocks of the message, in one call. */
  method NextChunk(h: Handle, direction: Direction, n: nat, ghost m: Message, k: nat,
                   input: array<Word>, inBase: nat, output: array<Word>, outBase: nat)
    requires h.init.algorithm == Ecb || h.init.algorithm == Cbc || h.init.algorithm == Ctr
    requires h.init.configOnce && n < 4096 && 4 * (k + n) <= |m.src| && m.core.mode.direction == direction
    requires Underway(h, m, k, input, inBase, output, outBase)
    modifies h, output
    ensures h.keyIvConfigured && h.Engine() == m.core
    ensures h.loads + h.StartLoads() == old(h.loads + h.StartLoads())
    ensures Underway(h, m, k + n, input, inBase, output, outBase)
  {
    ghost var next, chain := m.src[4 * k..4 * (k + n)], ChainAfter(m.core, m.chain, m.src, k);
    ghost var done := Output(m.core, m.chain, m.src, k);
    NextFacts(h, m, k, n, input, inBase, output, outBase);
    CallBehind(h, direction, n, input, inBase + 4 * k, output, outBase + 4 * k, m.core, chain, next,
               outBase, done, m.out0, Output(m.core, m.chain, m.src, k + n));
  }

  /** All the calls; the register loads still to come are only the first call's. */
  method SendChunks(h: Handle, direction: Direction, chunks: seq<nat>, ghost m: Message,
                    input: array<Word>, inBase: nat, output: array<Word>, outBase: nat)
    requires h.init.algorithm == Ecb || h.init.algorithm == Cbc || h.init.algorithm == Ctr
    requires h.init.configOnce && m.core.mode.direction == direction && |m.src| == 4 * Total(chunks)
    requires forall n | n in chunks :: n < 4096
    requires Underway(h, m, 0, input, inBase, output, outBase)
    modifies h, output
    ensures Underway(h, m, Total(chunks), input, inBase, output, outBase)
    ensures chunks != [] ==> h.keyIvConfigured && h.Engine() == m.core
    ensures h.loads + h.StartLoads() == old(h.loads + h.StartLoads())
  {
    var k := 0;
    for j := 0 to |chunks|
      invariant k == Total(chunks[..j]) && 4 * k <= |m.src|
      invariant Underway(h, m, k, input, inBase, output, outBase)
      invariant j > 0 ==> h.keyIvConfigured && h.Engine() == m.core
      invariant h.loads + h.StartLoads() == old(h.loads + h.StartLoads())
    {
      TotalPrefix(chunks, j);
      assert chunks[j] in chunks;
      NextChunk(h, direction, chunks[j], m, k, input, inBase, output, outBase);
      k := k + chunks[j];
    }
    TakeAll(chunks);
  }

  /**
   Chunking invariance: however a message is cut into blocks and calls, the output words and the
   final chaining state are those of the whole message, and key and vector are loaded once.
   */
  method CryptMessage(h: Handle, direction: Direction, chunks: seq<nat>,
                      input: array<Word>, inBase: nat, output: array<Word>, outBase: nat)
    requires h.init.algorithm == Ecb || h.init.algorithm == Cbc || h.init.algorithm == Ctr
    requires h.init.configOnce && h.state == Ready && !h.locked && h.Drained() && chunks != []
    requires forall n | n in chunks :: n < 4096
    requires inBase + 4 * Total(chunks) <= input.Length && outBase + 4 * Total(chunks) <= output.Length
    requires input == output ==> outBase <= inBase
    modifies h, output
    ensures h.state == Ready && !h.locked && h.Drained() && h.keyIvConfigured
    ensures h.loads == old(h.loads + h.StartLoads())
    ensures var n, core, chain := Total(chunks), old(CallCore(h, direction)), old(h.StartChain());
            var src := old(input[inBase..inBase + 4 * Total(chunks)]);
            && h.Engine() == core && h.chain == ChainAfter(core, chain, src, n) && h.din == old(h.din) + src
            && Written(output, old(output[..]), outBase, Output(core, chain, src, n))
  {
    ghost var src := input[inBase..inBase + 4 * Total(chunks)];
    ghost var m := Message(CallCore(h, direction), h.StartChain(), src, h.din, output[..]);
    SendChunks(h, direction, chunks, m, input, inBase, output, outBase);
    TakeAll(src);
  }
}
