/** HAL_CEC_Transmit_IT, HAL_CEC_ChangeRxBuffer and HAL_CEC_IRQHandler. */
module Cec {
  import opened Words
  import opened CecRun

  datatype State = Ready | Busy
  datatype Status = Ok | Error | HalBusy

  /** What the transmitter sees, in order: start and end of message marks, and bytes to send. */
  datatype TxOp = Som | Eom | Txdr(value: Byte)

  class Handle {
    const mem: array<Byte>        // where receive buffers lie
    var rxBuffer: nat            // Init.RxBuffer, a position in mem
    var rxXferSize: nat          // kept in 16 bits
    var rxState: State
    var gState: State
    var locked: bool
    var errorCode: set<Flag>
    var txBuff: array?<Byte>
    var txPtr: nat
    var txXferCount: nat         // kept in 16 bits

    var txCplt: nat              // calls of the callbacks
    var errorCalls: nat
    ghost var frames: seq<Frame> // what each call of the receive callback was given
    ghost var txLog: seq<TxOp>

    /** HAL_CEC_Init. */
    constructor (mem: array<Byte>, rxBuffer: nat)
      requires rxBuffer <= mem.Length
      ensures this.mem == mem && Receives(Rx(rxBuffer, [], [])) && gState == Ready && !locked && errorCode == {}
      ensures txLog == [] && txCplt == errorCalls == 0
    {
      this.mem, this.rxBuffer, rxXferSize := mem, rxBuffer, 0;
      rxState, gState, locked, errorCode := Ready, Ready, false, {};
      txBuff, txPtr, txXferCount := null, 0, 0;
      txCplt, errorCalls, frames, txLog := 0, 0, [], [];
    }

    /** The handle stands where r says: pointer, 16-bit count and bytes in memory agree. */
    ghost predicate Receives(r: Rx)
      reads `rxBuffer, `rxXferSize, `rxState, `frames, mem
    {
      && r.base + |r.cur| <= mem.Length && rxBuffer == r.base + |r.cur| && rxXferSize == Wrap16(|r.cur|)
      && mem[r.base..r.base + |r.cur|] == r.cur
      && frames == r.frames && (rxState == Busy <==> r.cur != [])
    }

    /** A byte received. */
    method HandleByte(e: Event, ghost r: Rx)
      requires Receives(r) && (RXBR in e.flags ==> r.base + |r.cur| < mem.Length)
      modifies `rxState, `rxXferSize, `rxBuffer, mem
      ensures Receives(r.Byte(e)) && OnlyStored(old(mem[..]), r, e)
      ensures RXBR !in e.flags ==>
        rxXferSize == old(rxXferSize) && rxState == old(rxState) && rxBuffer == old(rxBuffer)
    {
      if RXBR in e.flags {
        Wrap16Counts(rxXferSize);
        Wrap16Counts(|r.cur|);
        rxState := Busy;
        rxXferSize := Inc16(rxXferSize);
        mem[rxBuffer] := e.rxdr;
        rxBuffer := rxBuffer + 1;
      }
    }

    /** Memory changes only where the byte goes. */
    ghost predicate OnlyStored(mem0: seq<Byte>, r: Rx, e: Event)
      reads mem
    {
      |mem0| == mem.Length && forall j | 0 <= j < mem.Length && !(RXBR in e.flags && j == r.base + |r.cur|) ::
        mem[j] == mem0[j]
    }

    /** The end of a frame: the callback gets the rewound pointer and the count, and may change the buffer. */
    method HandleEnd(e: Event, ghost r: Rx)
      requires Receives(r) && (e.change.Some? ==> e.change.value <= mem.Length)
      modifies `rxState, `rxXferSize, `rxBuffer, `errorCode, `frames
      ensures Receives(r.Ended(e))
      ensures errorCode == if RXEND in e.flags then {} else old(errorCode)
      ensures
        if RXEND in e.flags then rxXferSize == 0 && rxState == Ready
        else rxXferSize == old(rxXferSize) && rxState == old(rxState) && rxBuffer == old(rxBuffer)
    {
      if RXEND in e.flags {
        rxState := Ready;
        errorCode := {};
        rxBuffer := rxBuffer - rxXferSize;
        assert mem[rxBuffer..rxBuffer + rxXferSize] == r.Seen();
        frames := frames + [Frame(rxBuffer, mem[rxBuffer..rxBuffer + rxXferSize])];
        if e.change.Some? {
          ChangeRxBuffer(e.change.value);
        }
        rxXferSize := 0;
      }
    }

    method ChangeRxBuffer(buffer: nat)
      modifies `rxBuffer
      ensures rxBuffer == buffer
    {
      rxBuffer := buffer;
    }

    /** The transmit side: a byte requested, and the end of a message. */
    method HandleTransmit(flags: set<Flag>)
      requires TXBR in flags ==> txBuff != null && txPtr < txBuff.Length
      modifies `txXferCount, `txPtr, `txLog, `gState, `locked, `errorCode, `txCplt
      ensures if TXBR in flags then
                && txXferCount == (if old(txXferCount) == 0 then 0xFFFF else old(txXferCount) - 1)
                && txPtr == old(txPtr) + 1
                && txLog == old(txLog) + (if txXferCount == 0 then [Eom] else []) + [Txdr(txBuff[old(txPtr)])]
              else
                txXferCount == old(txXferCount) && txPtr == old(txPtr) && txLog == old(txLog)
      ensures if TXEND in flags then gState == Ready && !locked && errorCode == {} && txCplt == old(txCplt) + 1
              else
                && gState == old(gState) && locked == old(locked)
                && errorCode == old(errorCode) && txCplt == old(txCplt)
    {
      if TXBR in flags {
        txXferCount := Dec16(txXferCount);
        if txXferCount == 0 {
          txLog := txLog + [Eom];
        }
        txLog := txLog + [Txdr(txBuff[txPtr])];
        txPtr := txPtr + 1;
      }
      if TXEND in flags {
        gState := Ready;
        locked := false;
        errorCode := {};
        txCplt := txCplt + 1;
      }
    }

    /**
     Errors: a receive error drops the frame; a transmit error alone, without lost arbitration, frees the
     transmitter.
     */
    method HandleErrors(flags: set<Flag>, ghost r: Rx)
      requires Receives(r)
      modifies `rxState, `rxXferSize, `rxBuffer, `errorCode, `gState, `errorCalls
      ensures Receives(r.Failed(flags))
      ensures
        var rx := RXOVR in flags || BRE in flags || SBPE in flags || LBPE in flags || RXACKE in flags;
        var tx := TXUDR in flags || TXERR in flags || TXACKE in flags;
        && errorCode == (if rx || tx then flags else old(errorCode))
        && errorCalls == old(errorCalls) + (if rx || tx then 1 else 0)
        && gState == (if tx && !rx && ARBLST !in flags then Ready else old(gState))
        && rxBuffer == old(rxBuffer) - (if rx then old(rxXferSize) else 0)
        && rxXferSize == (if rx then 0 else old(rxXferSize)) && rxState == (if rx then Ready else old(rxState))
    {
      AnyIsEither(flags);
      ErrorFlags(flags);
      if AnyOf(flags, RX_ERRORS + TX_ERRORS) {
        errorCode := flags;
        if AnyOf(flags, RX_ERRORS) {
          rxBuffer := rxBuffer - rxXferSize;
          rxXferSize := 0;
          rxState := Ready;
        } else if ARBLST !in flags && AnyOf(flags, TX_ERRORS) {
          gState := Ready;
        }
        errorCalls := errorCalls + 1;
      }
    }

    /** The receive side, and the note of a lost arbitration before it. */
    method HandleReceive(e: Event, ghost r: Rx)
      requires Receives(r) && Fits(r, e, mem.Length)
      modifies `rxState, `rxXferSize, `rxBuffer, `errorCode, `frames, mem
      ensures Receives(r.Received(e)) && OnlyStored(old(mem[..]), r, e)
      ensures errorCode == if RXEND in e.flags then {} else if ARBLST in e.flags then {ARBLST} else old(errorCode)
      ensures RXEND in e.flags ==> rxXferSize == 0 && rxState == Ready
      ensures RXEND !in e.flags && RXBR !in e.flags ==>
        rxXferSize == old(rxXferSize) && rxState == old(rxState) && rxBuffer == old(rxBuffer)
    {
      if ARBLST in e.flags {
        errorCode := {ARBLST};
      }
      HandleByte(e, r);
      HandleEnd(e, r.Byte(e));
    }

    /** The transmit side, and then the errors. */
    method HandleTransmitAndErrors(flags: set<Flag>, ghost r: Rx)
      requires Receives(r) && (TXBR in flags ==> txBuff != null && txPtr < txBuff.Length && txBuff != mem)
      modifies `txXferCount, `txPtr, `txLog, `gState, `locked, `errorCode, `txCplt
      modifies `rxState, `rxXferSize, `rxBuffer, `errorCalls
      ensures Receives(r.Failed(flags))
      ensures if TXBR in flags then
                && txXferCount == (if old(txXferCount) == 0 then 0xFFFF else old(txXferCount) - 1)
                && txPtr == old(txPtr) + 1
                && txLog == old(txLog) + (if txXferCount == 0 then [Eom] else []) + [Txdr(txBuff[old(txPtr)])]
              else
                txXferCount == old(txXferCount) && txPtr == old(txPtr) && txLog == old(txLog)
      ensures
        var rx := RXOVR in flags || BRE in flags || SBPE in flags || LBPE in flags || RXACKE in flags;
        var tx := TXUDR in flags || TXERR in flags || TXACKE in flags;
        && gState == (if TXEND in flags || (tx && !rx && ARBLST !in flags) then Ready else old(gState))
        && errorCalls == old(errorCalls) + (if rx || tx then 1 else 0)
        && errorCode == (if rx || tx then flags else if TXEND in flags then {} else old(errorCode))
        && rxXferSize == (if rx then 0 else old(rxXferSize)) && rxState == (if rx then Ready else old(rxState))
        && (!rx ==> rxBuffer == old(rxBuffer))
      ensures txCplt == old(txCplt) + (if TXEND in flags then 1 else 0) && locked == (old(locked) && TXEND !in flags)
    {
      HandleTransmit(flags);
      HandleErrors(flags, r);
    }

    /** One interrupt: the reception moves exactly as its step says, whatever the other flags. */
    method IrqHandler(e: Event, ghost r: Rx)
      requires Receives(r) && Fits(r, e, mem.Length)
      requires TXBR in e.flags ==> txBuff != null && txPtr < txBuff.Length && txBuff != mem
      modifies this, mem
      ensures Receives(r.Step(e)) && OnlyStored(old(mem[..]), r, e) && txBuff == old(txBuff)
      ensures if TXBR in e.flags then
                && txXferCount == (if old(txXferCount) == 0 then 0xFFFF else old(txXferCount) - 1)
                && txPtr == old(txPtr) + 1
                && txLog == old(txLog) + (if txXferCount == 0 then [Eom] else []) + [Txdr(txBuff[old(txPtr)])]
              else
                txXferCount == old(txXferCount) && txPtr == old(txPtr) && txLog == old(txLog)
      ensures
        var f := e.flags;
        var rx := RXOVR in f || BRE in f || SBPE in f || LBPE in f || RXACKE in f;
        var tx := TXUDR in f || TXERR in f || TXACKE in f;
        && gState == (if TXEND in f || (tx && !rx && ARBLST !in f) then Ready else old(gState))
        && errorCalls == old(errorCalls) + (if rx || tx then 1 else 0)
        && errorCode == (if rx || tx then f
                         else if RXEND in f || TXEND in f then {} else if ARBLST in f then {ARBLST} else old(errorCode))
        && (rx || RXEND in f ==> rxXferSize == 0 && rxState == Ready)
        && (!rx && RXEND !in f && RXBR !in f ==>
              rxXferSize == old(rxXferSize) && rxState == old(rxState) && rxBuffer == old(rxBuffer))
      ensures txCplt == old(txCplt) + if TXEND in e.flags then 1 else 0
      ensures locked == (old(locked) && TXEND !in e.flags)
    {
      HandleReceive(e, r);
      HandleTransmitAndErrors(e.flags, r.Received(e));
    }
  }

  function Dec16(n: nat): nat {
    if n == 0 then 0x1_0000 - 1 else n - 1
  }

  predicate AnyError(flags: set<Flag>) {
    AnyOf(flags, RX_ERRORS) || AnyOf(flags, TX_ERRORS)
  }

  lemma AnyIsEither(flags: set<Flag>)
    ensures AnyOf(flags, RX_ERRORS + TX_ERRORS) <==> AnyError(flags)
  {
  }

  /** There is room for the byte, and the buffer the callback installs lies in memory. */
  predicate Fits(r: Rx, e: Event, length: nat) {
    && (RXBR in e.flags ==> r.base + |r.cur| < length)
    && (e.change.Some? ==> e.change.value <= length)
  }
}
