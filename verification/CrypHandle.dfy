/** The CRYP handle together with the registers and FIFOs it drives. */
module CrypHandle {
  import opened Words
  import opened CrypCore

  datatype State = Ready | Busy
  datatype MessagePhase = NotStarted | Process | Final
  datatype Status = Ok | Error | HalBusy
  datatype ErrorFlag = BusyError | AuthTagSequence
  datatype SizeUnit = InWords | InBytes

  /** The user's configuration (CRYP_ConfigTypeDef). */
  datatype Config = Config(
    algorithm: Algorithm, key: seq<Word>, iv: seq<Word>,
    header: seq<Word>, headerSize: nat, headerUnit: SizeUnit,
    dataUnit: SizeUnit, configOnce: bool)

  /** What configuring the peripheral writes besides data. */
  datatype Load = KeyLoad(key: seq<Word>) | VectorLoad(iv: seq<Word>)

  const FIFO_DEPTH := 8

  class Handle {
    const cipher: (Mode, seq<Word>, Chain, Block) -> (Chain, Block)
    const init: Config

    // The handle
    var state: State
    var locked: bool
    var errors: set<ErrorFlag>
    var messagePhase: MessagePhase
    var keyIvConfigured: bool
    var size: nat                 // bytes of the current payload, kept in 16 bits
    var sizesSum: nat             // bytes of all payloads of the message, kept in 32 bits
    var input: array<Word>
    var inBase: nat
    var inCount: nat
    var output: array<Word>
    var outBase: nat
    var outCount: nat
    var headerCount: nat          // kept in 16 bits
    var inCplt: nat               // calls of the input, output and error callbacks
    var outCplt: nat
    var errorCalls: nat

    // The peripheral
    var enabled: bool
    var direction: Direction
    var gcmPhase: GcmPhase
    var npblb: nat
    var keyReg: seq<Word>
    var chain: Chain
    var inFifo: seq<Word>
    var outFifo: seq<Word>
    var inInterrupt: bool
    var outInterrupt: bool

    // What the bus has seen
    ghost var din: seq<Word>      // every word written to DIN
    ghost var loads: seq<Load>    // every load of the key and vector registers

    /** HAL_CRYP_Init on a handle in its reset state. */
    constructor (cipher: (Mode, seq<Word>, Chain, Block) -> (Chain, Block), init: Config, nobuffer: array<Word>)
      ensures this.cipher == cipher && this.init == init
      ensures state == Ready && !locked && errors == {} && !keyIvConfigured && messagePhase == NotStarted
      ensures Drained() && din == [] && loads == [] && !enabled && sizesSum == 0
      ensures outCplt == inCplt == errorCalls == 0 && !inInterrupt && !outInterrupt && npblb == 0
    {
      this.cipher, this.init := cipher, init;
      state, locked, errors, messagePhase, keyIvConfigured := Ready, false, {}, NotStarted, false;
      size, sizesSum, inCount, outCount, headerCount := 0, 0, 0, 0, 0;
      input, inBase, output, outBase := nobuffer, 0, nobuffer, 0;
      inCplt, outCplt, errorCalls := 0, 0, 0;
      enabled, direction, gcmPhase, npblb := false, Encryption, InitPhase, 0;
      keyReg, chain, inFifo, outFifo := [], [], [], [];
      inInterrupt, outInterrupt := false, false;
      din, loads := [], [];
    }

    function Engine(): Core
      reads `direction, `gcmPhase, `npblb, `keyReg
    {
      Core(cipher, Mode(init.algorithm, direction, gcmPhase, npblb), keyReg)
    }

    /** Whether the next call loads the key and the initialization vector. */
    predicate NeedsConfig()
      reads `keyIvConfigured
    {
      !(init.configOnce && keyIvConfigured)
    }

    /** The chaining state from which the next call processes its payload (ECB has no vector). */
    function StartChain(): Chain
      reads `keyIvConfigured, `chain
    {
      if NeedsConfig() && init.algorithm != Ecb then init.iv else chain
    }

    /** The register loads of the next call. */
    function StartLoads(): seq<Load>
      reads `keyIvConfigured
    {
      if !NeedsConfig() then []
      else if init.algorithm == Ecb then [KeyLoad(init.key)]
      else [KeyLoad(init.key), VectorLoad(init.iv)]
    }

    /** The core the next call uses. */
    function StartEngine(): Core
      reads `keyIvConfigured, `direction, `gcmPhase, `npblb, `keyReg
    {
      if NeedsConfig() then Engine().(key := init.key) else Engine()
    }

    predicate Drained()
      reads `inFifo, `outFifo
    {
      inFifo == [] && outFifo == []
    }

    predicate AbsorbsOnly()
      reads `gcmPhase
    {
      init.algorithm == Gcm && gcmPhase == HeaderPhase
    }

    predicate CanStep()
      reads `enabled, `gcmPhase, `inFifo, `outFifo
    {
      enabled && |inFifo| >= 4 && (AbsorbsOnly() || |outFifo| + 4 <= FIFO_DEPTH)
    }

    /** A write to DIN; it must find room in the input FIFO. */
    method WriteDin(w: Word)
      requires |inFifo| < FIFO_DEPTH
      modifies this`inFifo, this`din
      ensures inFifo == old(inFifo) + [w] && din == old(din) + [w]
    {
      inFifo, din := inFifo + [w], din + [w];
    }

    /** A read of DOUT; it must find a word in the output FIFO. */
    method ReadDout() returns (w: Word)
      requires outFifo != []
      modifies this`outFifo
      ensures [w] + outFifo == old(outFifo)
    {
      w, outFifo := outFifo[0], outFifo[1..];
    }

    /** The core takes one block; header blocks only change the hash. */
    method CoreStep()
      requires CanStep()
      modifies this`chain, this`inFifo, this`outFifo
      ensures inFifo == old(inFifo)[4..]
      ensures chain == old(Engine().Next(chain, BlockAt(inFifo, 0)))
      ensures outFifo == if AbsorbsOnly() then old(outFifo)
                         else old(outFifo) + old(Engine().Out(chain, BlockAt(inFifo, 0))).Words()
    {
      var core, block := Engine(), BlockAt(inFifo, 0);
      if !AbsorbsOnly() {
        outFifo := outFifo + core.Out(chain, block).Words();
      }
      chain, inFifo := core.Next(chain, block), inFifo[4..];
    }

    method Enable()
      modifies `enabled
      ensures enabled
    {
      enabled := true;
    }

    method Disable()
      modifies `enabled
      ensures !enabled
    {
      enabled := false;
    }

    /** CRYP_SetKey and the four writes of the initialization vector. */
    method SetKey()
      modifies `keyReg, `loads
      ensures keyReg == init.key && loads == old(loads) + [KeyLoad(init.key)]
    {
      keyReg, loads := init.key, loads + [KeyLoad(init.key)];
    }

    method SetInitVector()
      modifies `chain, `loads
      ensures chain == init.iv && loads == old(loads) + [VectorLoad(init.iv)]
    {
      chain, loads := init.iv, loads + [VectorLoad(init.iv)];
    }
  }
}
