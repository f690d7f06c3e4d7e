/** CEC messages over whole runs of interrupts, with reception going on. */
module CecTransmit {
  import opened Words
  import opened CecRun
  import opened Cec

  /** Logical addresses have four bits. */
  type Address = a: int | 0 <= a < 0x10

  /** The header byte: initiator in the high field, destination in the low one. */
  function Header(initiator: Address, destination: Address): (b: Byte)
    ensures b / 16 == initiator && b % 16 == destination
  {
    initiator * 16 + destination
  }

  /** The k-th data byte leaves, marked if it is the last one. */
  function Mark(bytes: seq<Byte>, k: nat): seq<TxOp>
    requires k < |bytes|
  {
    (if k + 1 == |bytes| then [Eom] else []) + [Txdr(bytes[k])]
  }

  function SentBytes(bytes: seq<Byte>, k: nat): seq<TxOp>
    requires k <= |bytes|
  {
    if k == 0 then [] else SentBytes(bytes, k - 1) + Mark(bytes, k - 1)
  }

  /** What the transmitter sees of a message once k of its bytes are sent. */
  function SentOps(header: Byte, bytes: seq<Byte>, k: nat): seq<TxOp>
    requires k <= |bytes|
  {
    (if bytes == [] then [Eom] else []) + [Txdr(header), Som] + SentBytes(bytes, k)
  }

  /** The values written to TXDR, in order. */
  function Values(log: seq<TxOp>): seq<Byte> {
    if log == [] then []
    else Values(log[..|log| - 1]) + if log[|log| - 1].Txdr? then [log[|log| - 1].value] else []
  }

  lemma ValuesAdd(log: seq<TxOp>, op: TxOp)
    ensures Values(log + [op]) == Values(log) + if op.Txdr? then [op.value] else []
  {
    assert (log + [op])[..|log|] == log;
  }

  lemma ValuesMark(log: seq<TxOp>, bytes: seq<Byte>, k: nat)
    requires k < |bytes|
    ensures Values(log + Mark(bytes, k)) == Values(log) + [bytes[k]]
  {
    if k + 1 == |bytes| {
      ValuesAdd(log, Eom);
      ValuesAdd(log + [Eom], Txdr(bytes[k]));
      assert log + Mark(bytes, k) == log + [Eom] + [Txdr(bytes[k])];
    } else {
      ValuesAdd(log, Txdr(bytes[k]));
      assert Mark(bytes, k) == [Txdr(bytes[k])];
    }
  }

  lemma SentNext(header: Byte, bytes: seq<Byte>, k: nat)
    requires k < |bytes|
    ensures SentOps(header, bytes, k + 1) == SentOps(header, bytes, k) + Mark(bytes, k)
  {
  }

  lemma SentFirst(header: Byte, bytes: seq<Byte>)
    ensures Values(SentOps(header, bytes, 0)) == [header]
  {
    var eom: seq<TxOp> := if bytes == [] then [Eom] else [];
    ValuesAdd([], Eom);
    ValuesAdd(eom, Txdr(header));
    ValuesAdd(eom + [Txdr(header)], Som);
    assert SentOps(header, bytes, 0) == eom + [Txdr(header)] + [Som];
  }

  /** Header and bytes are written in order, each once. */
  lemma {:induction false} SentInOrder(header: Byte, bytes: seq<Byte>, k: nat)
    requires k <= |bytes|
    ensures Values(SentOps(header, bytes, k)) == [header] + bytes[..k]
  {
    if k == 0 {
      SentFirst(header, bytes);
    } else {
      SentInOrder(header, bytes, k - 1);
      SentNext(header, bytes, k - 1);
      ValuesMark(SentOps(header, bytes, k - 1), bytes, k - 1);
    }
  }

  /** A mark is in the log at one place only: just before the last write. */
  lemma {:induction false} EomOnce(header: Byte, bytes: seq<Byte>, k: nat, i: nat)
    requires k <= |bytes| && i < |SentOps(header, bytes, k)|
    ensures var log := SentOps(header, bytes, k);
            log[i].Eom? <==> k == |bytes| && i == (if bytes == [] then 0 else |log| - 2)
    ensures SentOps(header, bytes, k)[i].Som? <==> i == if bytes == [] then 2 else 1
    ensures |SentOps(header, bytes, k)| == 2 + k + if k == |bytes| then 1 else 0
    ensures SentOps(header, bytes, k)[|SentOps(header, bytes, k)| - 1].Txdr? || k == 0
  {
    if k > 0 {
      var before := SentOps(header, bytes, k - 1);
      assert SentOps(header, bytes, k) == before + Mark(bytes, k - 1);
      EomOnce(header, bytes, k - 1, if i < |before| then i else 0);
    }
  }

  /** k bytes of the message are sent. */
  ghost predicate Sending(h: Handle, header: Byte, data: array?<Byte>, bytes: seq<Byte>, k: nat, log0: seq<TxOp>)
    reads h, data
  {
    && k <= |bytes| && |bytes| < 0x1_0000
    && h.txBuff == data && h.txPtr == k && h.txXferCount == |bytes| - k
    && (bytes != [] ==> data != null && data != h.mem && |bytes| <= data.Length && data[..|bytes|] == bytes)
    && h.txLog == log0 + SentOps(header, bytes, k)
  }

  /** HAL_CEC_Transmit_IT: the header leaves at once, marked as the end if it is alone. */
  method TransmitIt(h: Handle, initiator: Address, destination: Address, data: array?<Byte>, size: nat)
    returns (status: Status)
    requires size < 0x1_0000 && (data != null ==> size <= data.Length && data != h.mem)
    modifies h`txBuff, h`txPtr, h`txXferCount, h`gState, h`errorCode, h`txLog, h`locked
    ensures status == if old(h.gState) != Ready then HalBusy else if data == null && size > 0 then Error
                      else if old(h.locked) then HalBusy else Ok
    ensures status == Ok ==>
      && h.gState == Busy && !h.locked && h.errorCode == {}
      && Sending(h, Header(initiator, destination), data, if data == null then [] else data[..size], 0, old(h.txLog))
    ensures status != Ok ==>
      h.gState == old(h.gState) && h.txLog == old(h.txLog) && h.txXferCount == old(h.txXferCount)
        && h.locked == old(h.locked)
  {
    if h.gState == Ready {
      if data == null && size > 0 {
        return Error;
      }
      if h.locked {
        return HalBusy;
      }
      h.locked := true;
      h.txBuff, h.txPtr := data, 0;
      h.gState := Busy;
      h.errorCode := {};
      h.txXferCount := size;
      if size == 0 {
        h.txLog := h.txLog + [Eom];
      }
      h.txLog := h.txLog + [Txdr(initiator * 16 + destination)];
      h.txLog := h.txLog + [Som];
      h.locked := false;
      return Ok;
    } else {
      return HalBusy;
    }
  }

  /** The requests for a byte in a run. */
  function Requests(events: seq<Event>): (n: nat)
    ensures n <= |events|
  {
    if events == [] then 0 else Requests(events[..|events| - 1]) + if TXBR in events[|events| - 1].flags then 1 else 0
  }

  lemma {:induction false} RequestsPrefix(events: seq<Event>, j: nat)
    requires j < |events|
    ensures Requests(events[..j + 1]) == Requests(events[..j]) + if TXBR in events[j].flags then 1 else 0
    ensures Requests(events[..j + 1]) <= Requests(events)
    decreases |events| - j
  {
    assert events[..j + 1][..j] == events[..j];
    if j + 1 < |events| {
      RequestsPrefix(events, j + 1);
    } else {
      assert events[..j + 1] == events;
    }
  }

  /** Whether something in a run made the handle ready to transmit again. */
  predicate Freed(events: seq<Event>) {
    events != [] && (Freed(events[..|events| - 1]) || Frees(events[|events| - 1]))
  }

  /** The end of a message, or a transmit error with neither a receive error nor a lost arbitration. */
  predicate Frees(e: Event) {
    TXEND in e.flags || (AnyOf(e.flags, TX_ERRORS) && !AnyOf(e.flags, RX_ERRORS) && ARBLST !in e.flags)
  }

  lemma {:induction false} FreedExact(events: seq<Event>)
    ensures Freed(events) <==> exists j: nat | j < |events| ::
      var f := events[j].flags;
      || TXEND in f
      || ((TXUDR in f || TXERR in f || TXACKE in f) && ARBLST !in f
          && RXOVR !in f && BRE !in f && SBPE !in f && LBPE !in f && RXACKE !in f)
  {
    if events != [] {
      var n := |events| - 1;
      FreedExact(events[..n]);
      ErrorFlags(events[n].flags);
    }
  }

  lemma RunNext(r: Rx, events: seq<Event>, j: nat)
    requires j < |events|
    ensures RunOf(r, events[..j + 1]) == RunOf(r, events[..j]).Step(events[j])
    ensures Freed(events[..j + 1]) == (Freed(events[..j]) || Frees(events[j]))
  {
    assert events[..j + 1][..j] == events[..j];
  }

  /** Every byte of a run finds room. */
  ghost predicate AllFit(r: Rx, events: seq<Event>, length: nat) {
    forall j | 0 <= j < |events| :: Fits(RunOf(r, events[..j]), events[j], length)
  }

  /** One interrupt of a message, whatever its flags. */
  method Interrupt(h: Handle, e: Event, header: Byte, data: array?<Byte>, ghost bytes: seq<Byte>, ghost k: nat,
                   ghost log0: seq<TxOp>, ghost r: Rx)
    requires Sending(h, header, data, bytes, k, log0) && (TXBR in e.flags ==> k < |bytes|)
    requires h.Receives(r) && Fits(r, e, h.mem.Length)
    modifies h, h.mem
    ensures h.Receives(r.Step(e))
    ensures Sending(h, header, data, bytes, if TXBR in e.flags then k + 1 else k, log0)
    ensures h.gState == if Frees(e) then Ready else old(h.gState)
    ensures h.txCplt == old(h.txCplt) + if TXEND in e.flags then 1 else 0
  {
    h.IrqHandler(e, r);
    if TXBR in e.flags {
      assert log0 + SentOps(header, bytes, k) + Mark(bytes, k) == log0 + SentOps(header, bytes, k + 1);
    }
  }

  /**
   A run of interrupts with any flags: the reception is the run of its events, whatever the
   transmission does; the message is sent as far as bytes were requested, and is complete, header
   first and marked once, when all were.
   */
  method Run(h: Handle, events: seq<Event>, header: Byte, data: array?<Byte>, ghost bytes: seq<Byte>,
             ghost log0: seq<TxOp>, ghost r: Rx)
    requires Sending(h, header, data, bytes, 0, log0) && Requests(events) <= |bytes|
    requires h.Receives(r) && AllFit(r, events, h.mem.Length)
    modifies h, h.mem
    ensures h.Receives(RunOf(r, events))
    ensures Sending(h, header, data, bytes, Requests(events), log0)
    ensures h.gState == if Freed(events) then Ready else old(h.gState)
  {
    for j := 0 to |events|
      invariant h.Receives(RunOf(r, events[..j]))
      invariant Sending(h, header, data, bytes, Requests(events[..j]), log0)
      invariant h.gState == if Freed(events[..j]) then Ready else old(h.gState)
    {
      RequestsPrefix(events, j);
      RunNext(r, events, j);
      Interrupt(h, events[j], header, data, bytes, Requests(events[..j]), log0, RunOf(r, events[..j]));
    }
    assert events[..|events|] == events;
  }

  /**
   A whole transmission with any reception going on: if as many bytes are requested as there are
   data, TXDR has been given the header and then the data, in order and each once.
   */
  method Transmission(h: Handle, initiator: Address, destination: Address, data: array?<Byte>, size: nat,
                      events: seq<Event>, ghost r: Rx) returns (status: Status)
    requires h.gState == Ready && !h.locked && (data == null ==> size == 0)
    requires size < 0x1_0000 && (data != null ==> size <= data.Length && data != h.mem)
    requires h.Receives(r) && AllFit(r, events, h.mem.Length) && Requests(events) == size
    modifies h, h.mem
    ensures status == Ok && h.Receives(RunOf(r, events))
    ensures var bytes := if data == null then [] else data[..size];
            && h.txLog == old(h.txLog) + SentOps(Header(initiator, destination), bytes, size)
            && Values(SentOps(Header(initiator, destination), bytes, size)) == [Header(initiator, destination)] + bytes
    ensures h.gState == if Freed(events) then Ready else Busy
  {
    ghost var bytes, log0 := if data == null then [] else data[..size], h.txLog;
    status := TransmitIt(h, initiator, destination, data, size);
    Run(h, events, Header(initiator, destination), data, bytes, log0, r);
    SentInOrder(Header(initiator, destination), bytes, size);
    TakeAll(bytes);
  }
}
