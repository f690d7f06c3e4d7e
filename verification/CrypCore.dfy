/**
 The cryptographic core as an abstract machine: one 128-bit block in, one out,
 with a chaining state in between.  The cipher itself is a parameter.
 */
module CrypCore {
  import opened Words

  datatype Algorithm = Ecb | Cbc | Ctr | Gcm
  datatype Direction = Encryption | Decryption
  datatype GcmPhase = InitPhase | HeaderPhase | PayloadPhase | FinalPhase

  /** The fields of the control register that change what the core computes. */
  datatype Mode = Mode(algorithm: Algorithm, direction: Direction, phase: GcmPhase, npblb: nat)

  datatype Block = Block(w0: Word, w1: Word, w2: Word, w3: Word) {
    function Words(): (s: seq<Word>)
      ensures |s| == 4
    {
      [w0, w1, w2, w3]
    }
  }

  /** Whatever the core keeps between blocks: the IV registers and the GCM hash. */
  type Chain = seq<Word>

  datatype Core = Core(cipher: (Mode, seq<Word>, Chain, Block) -> (Chain, Block), mode: Mode, key: seq<Word>) {
    function Next(chain: Chain, block: Block): Chain { cipher(mode, key, chain, block).0 }
    function Out(chain: Chain, block: Block): Block { cipher(mode, key, chain, block).1 }
  }

  function BlockAt(ws: seq<Word>, k: nat): Block
    requires 4 * k + 4 <= |ws|
  {
    Block(ws[4 * k], ws[4 * k + 1], ws[4 * k + 2], ws[4 * k + 3])
  }

  /** The chaining state after the first k blocks of a message. */
  function ChainAfter(core: Core, chain: Chain, ws: seq<Word>, k: nat): Chain
    requires 4 * k <= |ws|
  {
    if k == 0 then chain
    else core.Next(ChainAfter(core, chain, ws, k - 1), BlockAt(ws, k - 1))
  }

  /** The words the core produces for the first k blocks of a message. */
  function Output(core: Core, chain: Chain, ws: seq<Word>, k: nat): (r: seq<Word>)
    requires 4 * k <= |ws|
    ensures |r| == 4 * k
  {
    if k == 0 then []
    else Output(core, chain, ws, k - 1) + core.Out(ChainAfter(core, chain, ws, k - 1), BlockAt(ws, k - 1)).Words()
  }

  /** What is produced for j blocks starts with what is produced for i of them. */
  lemma {:induction false} OutputPrefix(core: Core, chain: Chain, ws: seq<Word>, i: nat, j: nat)
    requires i <= j && 4 * j <= |ws|
    ensures Output(core, chain, ws, j)[..4 * i] == Output(core, chain, ws, i)
    decreases j
  {
    if i < j {
      OutputPrefix(core, chain, ws, i, j - 1);
      assert Output(core, chain, ws, j)[..4 * i] == Output(core, chain, ws, j - 1)[..4 * i];
    }
  }

  /** Only the first k blocks matter. */
  lemma {:induction false} OnlyPrefixMatters(core: Core, chain: Chain, ws: seq<Word>, xs: seq<Word>, k: nat)
    requires 4 * k <= |ws| && 4 * k <= |xs| && ws[..4 * k] == xs[..4 * k]
    ensures ChainAfter(core, chain, ws, k) == ChainAfter(core, chain, xs, k)
    ensures Output(core, chain, ws, k) == Output(core, chain, xs, k)
  {
    if k > 0 {
      assert ws[..4 * (k - 1)] == ws[..4 * k][..4 * (k - 1)] == xs[..4 * (k - 1)];
      OnlyPrefixMatters(core, chain, ws, xs, k - 1);
      forall p | 0 <= p < 4 * k ensures ws[p] == xs[p] {
        assert ws[..4 * k][p] == xs[..4 * k][p];
      }
    }
  }

  /** Chunking: a message cut at a block boundary may be processed in two parts. */
  lemma {:induction false} Split(core: Core, chain: Chain, a: seq<Word>, b: seq<Word>, i: nat, j: nat)
    requires |a| == 4 * i && 4 * j <= |b|
    ensures ChainAfter(core, chain, a + b, i + j) == ChainAfter(core, ChainAfter(core, chain, a, i), b, j)
    ensures Output(core, chain, a + b, i + j)
         == Output(core, chain, a, i) + Output(core, ChainAfter(core, chain, a, i), b, j)
  {
    if j == 0 {
      assert (a + b)[..4 * i] == a[..4 * i];
      OnlyPrefixMatters(core, chain, a + b, a, i);
    } else {
      Split(core, chain, a, b, i, j - 1);
      assert BlockAt(a + b, i + j - 1) == BlockAt(b, j - 1);
    }
  }
}
