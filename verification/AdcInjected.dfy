/**
 Building an injected-group context over several calls of HAL_ADCEx_InjectedConfigChannel.
 Registers are the sets of their bits that are set.
 */
module AdcInjected {

  type Bits = set<nat>
  datatype Rank = Rank1 | Rank2 | Rank3 | Rank4
  datatype Edge = NoEdge | Rising | Falling | BothEdges
  datatype Status = Ok | HalBusy
  type Count = n: nat | 1 <= n <= 4 witness 1

  const SOFTWARE_START: Bits := {}
  const JL: Bits := {0, 1}
  const JEXTSEL: Bits := {2, 3, 4, 5, 6}
  const JEXTEN: Bits := {7, 8}
  const FIVE_BITS: Bits := {0, 1, 2, 3, 4}
  /** The bits of SQR3's SQ10, which the code uses as a channel to clear a rank. */
  const SQR3_SQ10: Bits := {0, 1, 2, 3, 4}

  function Digit(x: Bits, b: nat): nat { if b in x then 1 else 0 }

  /** Where the field of a rank begins. */
  function Pos(rank: Rank): nat {
    match rank case Rank1 => 9 case Rank2 => 15 case Rank3 => 21 case Rank4 => 27
  }

  function RankBits(rank: Rank): (r: Bits)
    ensures forall b :: b in r <==> Pos(rank) <= b < Pos(rank) + 5
  {
    match rank
    case Rank1 => {9, 10, 11, 12, 13}
    case Rank2 => {15, 16, 17, 18, 19}
    case Rank3 => {21, 22, 23, 24, 25}
    case Rank4 => {27, 28, 29, 30, 31}
  }

  /** JL, JEXTSEL, JEXTEN and the four JSQ fields, 0xFBEFBFFF: all bits but 14, 20 and 26. */
  function JsqrFields(): Bits { set b: nat | b < 32 && InField(b) }

  predicate InField(b: nat) { b < 32 && b != 14 && b != 20 && b != 26 }

  lemma FieldsOfJsqr()
    ensures JsqrFields() == JL + JEXTSEL + JEXTEN
      + (RankBits(Rank1) + RankBits(Rank2) + RankBits(Rank3) + RankBits(Rank4))
  {
  }

  /** The field of a rank, as a number. */
  function Field(jsqr: Bits, rank: Rank): Bits {
    set b | b in FIVE_BITS && b + Pos(rank) in jsqr
  }

  /** The channel number: bits 26 to 30 of a channel. */
  function Number(channel: Bits): Bits {
    set b | b in FIVE_BITS && b + 26 in channel
  }

  /** A channel number moved to the field of its rank (ADC_JSQR_RK). */
  function AtRank(channel: Bits, rank: Rank): Bits {
    set x | x in RankBits(rank) && x - Pos(rank) in Number(channel)
  }

  /** The arguments of one call that concern the context. */
  datatype Call = Call(channel: Bits, rank: Rank, conversions: Count, trigger: Bits, edge: Edge) {
    /** The edge in the place of JEXTEN. */
    function EdgeBits(): Bits {
      match edge case NoEdge => {} case Rising => {7} case Falling => {8} case BothEdges => {7, 8}
    }

    /** The call as it is taken when only rank 1 is used. */
    function Alone(): Call { this.(conversions := 1) }
  }

  function Less1(n: Count): Bits {
    if n == 1 then {} else if n == 2 then {0} else if n == 3 then {1} else {0, 1}
  }

  /** Trigger selection and edge, none for a software start. */
  function TriggerBits(c: Call): Bits {
    if c.trigger != SOFTWARE_START then c.trigger * JEXTSEL + c.EdgeBits() else {}
  }

  /** What one call contributes: its channel and, if it is the first, length and trigger. */
  function Part(c: Call, first: bool): Bits {
    (if first then Less1(c.conversions) + TriggerBits(c) else {}) + AtRank(c.channel, c.rank)
  }

  /** What a series of calls for one context accumulates. */
  function Image(calls: seq<Call>): Bits {
    if calls == [] then {} else Image(calls[..|calls| - 1]) + Part(calls[|calls| - 1], |calls| == 1)
  }

  /** The channels configured for a rank, on top of each other. */
  function Overlaid(calls: seq<Call>, rank: Rank): Bits {
    if calls == [] then {}
    else
      var last := calls[|calls| - 1];
      Overlaid(calls[..|calls| - 1], rank) + if last.rank == rank then Number(last.channel) else {}
  }

  lemma HeadHasNoField(c: Call, rank: Rank)
    ensures Field(Less1(c.conversions) + TriggerBits(c), rank) == {}
  {
    var head := Less1(c.conversions) + TriggerBits(c);
    assert forall b | b in head :: b < 9;
  }

  lemma FieldOfChannel(channel: Bits, own: Rank, rank: Rank)
    ensures Field(AtRank(channel, own), rank) == if own == rank then Number(channel) else {}
  {
    if own == rank {
      assert forall b | b in FIVE_BITS :: b + Pos(rank) in RankBits(rank);
    }
  }

  lemma FieldOfPart(c: Call, first: bool, rank: Rank)
    ensures Field(Part(c, first), rank) == if c.rank == rank then Number(c.channel) else {}
  {
    HeadHasNoField(c, rank);
    FieldOfChannel(c.channel, c.rank, rank);
    FieldOfUnion(if first then Less1(c.conversions) + TriggerBits(c) else {}, AtRank(c.channel, c.rank), rank);
  }

  lemma FieldOfUnion(x: Bits, y: Bits, rank: Rank)
    ensures Field(x + y, rank) == Field(x, rank) + Field(y, rank)
  {
  }

  /** Field by field, the image is the channels of each rank on top of each other. */
  lemma {:induction false} ImageFields(calls: seq<Call>, rank: Rank)
    ensures Field(Image(calls), rank) == Overlaid(calls, rank)
  {
    if calls != [] {
      var init, last := calls[..|calls| - 1], calls[|calls| - 1];
      ImageFields(init, rank);
      FieldOfPart(last, |calls| == 1, rank);
      FieldOfUnion(Image(init), Part(last, |calls| == 1), rank);
    }
  }

  /** Length, trigger and edge as numbers. */
  lemma HeadNumbers(c: Call)
    ensures
      var x := Less1(c.conversions) + TriggerBits(c);
      && Digit(x, 0) + 2 * Digit(x, 1) == c.conversions - 1
      && (forall b | 2 <= b <= 6 :: b in x <==> b in c.trigger)
      && Digit(x, 7) + 2 * Digit(x, 8)
         == if c.trigger == {} then 0
           else match c.edge case NoEdge => 0 case Rising => 1 case Falling => 2 case BothEdges => 3
  {
  }

  lemma HeadOnly(image: Bits, c: Call)
    requires image * JL == Less1(c.conversions) && image * (JEXTSEL + JEXTEN) == TriggerBits(c)
    ensures forall b | 0 <= b <= 8 :: b in image <==> b in Less1(c.conversions) + TriggerBits(c)
  {
    forall b | 0 <= b <= 8 ensures b in image <==> b in Less1(c.conversions) + TriggerBits(c) {
      assert b in JL || b in JEXTSEL + JEXTEN;
      assert b in image * JL <==> b in Less1(c.conversions);
      assert b in image * (JEXTSEL + JEXTEN) <==> b in TriggerBits(c);
    }
  }

  /** The image has the length and trigger of the first call, whatever the others say. */
  lemma {:induction false} ImageHead(calls: seq<Call>)
    requires calls != []
    ensures Image(calls) * JL == Less1(calls[0].conversions)
    ensures Image(calls) * (JEXTSEL + JEXTEN) == TriggerBits(calls[0])
    ensures
      var x, c := Image(calls), calls[0];
      && Digit(x, 0) + 2 * Digit(x, 1) == c.conversions - 1
      && (forall b | 2 <= b <= 6 :: b in x <==> b in c.trigger)
      && Digit(x, 7) + 2 * Digit(x, 8)
         == if c.trigger == {} then 0
           else match c.edge case NoEdge => 0 case Rising => 1 case Falling => 2 case BothEdges => 3
  {
    var init, last := calls[..|calls| - 1], calls[|calls| - 1];
    assert AtRank(last.channel, last.rank) * (JL + JEXTSEL + JEXTEN) == {};
    if init == [] {
      assert Image(calls) == Part(last, true);
    } else {
      ImageHead(init);
    }
    HeadNumbers(calls[0]);
    HeadOnly(Image(calls), calls[0]);
  }

  /** Every call's channel is at its own rank. */
  ghost predicate AllPlaced(calls: seq<Call>) {
    forall i | 0 <= i < |calls| :: Field(Image(calls), calls[i].rank) == Number(calls[i].channel)
  }

  /** No rank is configured with two different channels. */
  ghost predicate NoClash(calls: seq<Call>) {
    forall i, j | 0 <= i < |calls| && 0 <= j < |calls| && calls[i].rank == calls[j].rank ::
      Number(calls[i].channel) == Number(calls[j].channel)
  }

  /** A rank configured with one channel only shows that channel. */
  lemma {:induction false} OverlaidOnce(calls: seq<Call>, rank: Rank, number: Bits)
    requires forall i | 0 <= i < |calls| :: calls[i].rank == rank ==> Number(calls[i].channel) == number
    ensures Overlaid(calls, rank) == if exists i :: 0 <= i < |calls| && calls[i].rank == rank then number else {}
  {
    if calls != [] {
      var init, last := calls[..|calls| - 1], calls[|calls| - 1];
      OverlaidOnce(init, rank, number);
      if i :| 0 <= i < |calls| && calls[i].rank == rank {
        if i < |init| {
          assert init[i].rank == rank;
        }
      }
    }
  }

  /** All channels come out at their ranks exactly when no rank is given two different channels. */
  lemma PlacedExact(calls: seq<Call>)
    ensures AllPlaced(calls) <==> NoClash(calls)
  {
    if NoClash(calls) {
      forall i | 0 <= i < |calls| ensures Field(Image(calls), calls[i].rank) == Number(calls[i].channel) {
        ImageFields(calls, calls[i].rank);
        OverlaidOnce(calls, calls[i].rank, Number(calls[i].channel));
      }
    }
  }

  lemma LoadedHead(jsqr: Bits, loaded: Bits, calls: seq<Call>)
    requires loaded == jsqr - JsqrFields() + Image(calls)
    requires calls != []
    ensures
      var c := calls[0];
      && Digit(loaded, 0) + 2 * Digit(loaded, 1) == c.conversions - 1
      && (forall b | 2 <= b <= 6 :: b in loaded <==> b in c.trigger)
      && Digit(loaded, 7) + 2 * Digit(loaded, 8)
         == if c.trigger == {} then 0
           else match c.edge case NoEdge => 0 case Rising => 1 case Falling => 2 case BothEdges => 3
  {
    ImageHead(calls);
    LoadedLow(jsqr, loaded, Image(calls));
  }

  lemma LoadedLow(jsqr: Bits, loaded: Bits, image: Bits)
    requires loaded == jsqr - JsqrFields() + image
    ensures forall b | 0 <= b <= 8 :: b in loaded <==> b in image
  {
  }

  lemma LoadedField(jsqr: Bits, loaded: Bits, calls: seq<Call>, i: nat)
    requires loaded == jsqr - JsqrFields() + Image(calls)
    requires NoClash(calls) && i < |calls|
    ensures Field(loaded, calls[i].rank) == Number(calls[i].channel)
  {
    var rank := calls[i].rank;
    ImageFields(calls, rank);
    FieldOfUnion(jsqr - JsqrFields(), Image(calls), rank);
    NothingLeft(jsqr, rank);
    OverlaidOnce(calls, rank, Number(calls[i].channel));
  }

  lemma LoadedFree(jsqr: Bits, loaded: Bits, calls: seq<Call>, rank: Rank)
    requires loaded == jsqr - JsqrFields() + Image(calls)
    requires forall i | 0 <= i < |calls| :: calls[i].rank != rank
    ensures Field(loaded, rank) == {}
  {
    ImageFields(calls, rank);
    FieldOfUnion(jsqr - JsqrFields(), Image(calls), rank);
    NothingLeft(jsqr, rank);
    OverlaidOnce(calls, rank, {});
  }

  /** A field lies in the five bits from where it begins. */
  lemma FieldBits(x: Bits, rank: Rank, start: nat, channel: Bits)
    requires start == Pos(rank)
    requires Field(x, rank) == Number(channel)
    ensures forall y | start <= y < start + 5 :: y in x <==> y - start + 26 in channel
  {
    forall y | start <= y < start + 5 ensures y in x <==> y - start + 26 in channel {
      assert y - start in FIVE_BITS;
      assert y - start in Field(x, rank) <==> y in x;
      assert y - start in Number(channel) <==> y - start + 26 in channel;
    }
  }

  lemma {:induction false} ImageWithin(calls: seq<Call>)
    ensures Image(calls) <= JsqrFields()
  {
    if calls != [] {
      ImageWithin(calls[..|calls| - 1]);
      PartWithin(calls[|calls| - 1], |calls| == 1);
    }
  }

  lemma PartWithin(c: Call, first: bool)
    ensures Part(c, first) <= JsqrFields()
  {
    assert Less1(c.conversions) + TriggerBits(c) <= JL + JEXTSEL + JEXTEN;
    assert AtRank(c.channel, c.rank) <= RankBits(c.rank);
    RankWithin(c.rank);
  }

  lemma RankWithin(rank: Rank)
    ensures RankBits(rank) <= JsqrFields()
  {
    match rank case Rank1 => case Rank2 => case Rank3 => case Rank4 =>
  }

  /** Bits 14, 20 and 26 belong to no field. */
  lemma LoadedElse(jsqr: Bits, loaded: Bits, calls: seq<Call>)
    requires loaded == jsqr - JsqrFields() + Image(calls)
    ensures forall x | x == 14 || x == 20 || x == 26 || x >= 32 ::
      x in loaded <==> x in jsqr
  {
    ImageWithin(calls);
    forall x | x == 14 || x == 20 || x == 26 || x >= 32
      ensures x in loaded <==> x in jsqr
    {
      assert x !in JsqrFields();
    }
  }

  lemma ChannelShows(jsqr: Bits, loaded: Bits, calls: seq<Call>, i: nat, start: nat)
    requires loaded == jsqr - JsqrFields() + Image(calls)
    requires NoClash(calls) && i < |calls| && start == Pos(calls[i].rank)
    ensures forall x | start <= x < start + 5 :: x in loaded <==> x - start + 26 in calls[i].channel
  {
    LoadedField(jsqr, loaded, calls, i);
    FieldBits(loaded, calls[i].rank, start, calls[i].channel);
  }

  /** A rank that no call of the context configures reads 0. */
  lemma FreeRankShows(jsqr: Bits, loaded: Bits, calls: seq<Call>, rank: Rank)
    requires loaded == jsqr - JsqrFields() + Image(calls)
    requires forall i | 0 <= i < |calls| :: calls[i].rank != rank
    ensures
      var start := match rank case Rank1 => 9 case Rank2 => 15 case Rank3 => 21 case Rank4 => 27;
      forall x | start <= x < start + 5 :: x !in loaded
  {
    LoadedFree(jsqr, loaded, calls, rank);
    FieldBits(loaded, rank, Pos(rank), {});
  }

  /** What JSQR shows once a context is loaded, as numbers: length, trigger, edge, and each rank's channel. */
  lemma LoadShows(jsqr: Bits, loaded: Bits, calls: seq<Call>, i: nat)
    requires loaded == jsqr - JsqrFields() + Image(calls)
    requires NoClash(calls) && i < |calls|
    ensures
      var c := calls[0];
      && Digit(loaded, 0) + 2 * Digit(loaded, 1) == c.conversions - 1
      && (forall b | 2 <= b <= 6 :: b in loaded <==> b in c.trigger)
      && Digit(loaded, 7) + 2 * Digit(loaded, 8)
         == if c.trigger == {} then 0
           else match c.edge case NoEdge => 0 case Rising => 1 case Falling => 2 case BothEdges => 3
    ensures
      var start := match calls[i].rank case Rank1 => 9 case Rank2 => 15 case Rank3 => 21 case Rank4 => 27;
      forall x | start <= x < start + 5 :: x in loaded <==> x - start + 26 in calls[i].channel
    ensures forall x | x == 14 || x == 20 || x == 26 || x >= 32 ::
      x in loaded <==> x in jsqr
  {
    LoadedHead(jsqr, loaded, calls);
    LoadedElse(jsqr, loaded, calls);
    ChannelShows(jsqr, loaded, calls, i, Pos(calls[i].rank));
  }

  lemma NothingLeft(jsqr: Bits, rank: Rank)
    ensures Field(jsqr - JsqrFields(), rank) == {}
  {
    assert forall b | b in FIVE_BITS :: b + Pos(rank) in RankBits(rank);
    RankWithin(rank);
  }

  /** The mask meant to clear a rank's old bits is empty: SQ10's bits hold no channel number. */
  lemma ClearMaskEmpty(rank: Rank)
    ensures AtRank(SQR3_SQ10, rank) == {}
  {
  }

  /** The calls of the context once c is among them, and how many are then to come. */
  function Now(calls: seq<Call>, due: nat, c: Call): seq<Call> { if due == 0 then [c] else calls + [c] }
  function Left(due: nat, c: Call): nat { if due == 0 then c.conversions - 1 else due - 1 }

  lemma ImageGrows(calls: seq<Call>, due: nat, c: Call)
    requires due > 0 ==> calls != []
    ensures Image(Now(calls, due, c)) == (if due == 0 then {} else Image(calls)) + Part(c, due == 0)
  {
    if due == 0 {
      assert [c][..0] == [] && Image([]) == {};
    } else {
      assert (calls + [c])[..|calls|] == calls;
    }
  }

  class Handle {
    var scanMode: bool           // Init.ScanConvMode
    var channelCount: nat        // InjectionConfig
    var contextQueue: Bits
    var locked: bool
    var jsqr: Bits
    ghost var loads: seq<Bits>   // every value written to JSQR

    constructor (scanMode: bool, jsqr: Bits)
      ensures this.scanMode == scanMode && this.jsqr == jsqr && channelCount == 0 && !locked && loads == []
    {
      this.scanMode, this.jsqr, channelCount, contextQueue, locked, loads := scanMode, jsqr, 0, {}, false, [];
    }

    /** MODIFY_REG of all fields. */
    method LoadContext(context: Bits)
      modifies `jsqr, `loads
      ensures jsqr == old(jsqr) - JsqrFields() + context && loads == old(loads) + [jsqr]
    {
      jsqr := jsqr - JsqrFields() + context;
      loads := loads + [jsqr];
    }

    /** `due` calls are still to come for the context that `calls` are building; with none the next call begins one. */
    ghost predicate Building(calls: seq<Call>, due: nat)
      reads `channelCount, `contextQueue
    {
      channelCount == due && (due > 0 ==> calls != [] && contextQueue == Image(calls))
    }

    /**
     The sequencer part of HAL_ADCEx_InjectedConfigChannel.  Without scan mode or for one conversion
     only rank 1 is used and loaded at once, and a context being built goes on from that; else the
     context is loaded by the last of its calls.
     */
    method InjectedConfigChannel(c: Call, ghost calls: seq<Call>, ghost due: nat) returns (status: Status)
      requires Building(calls, due)
      modifies this
      ensures status == if old(locked) then HalBusy else Ok
      ensures locked == old(locked) && scanMode == old(scanMode)
      ensures status == HalBusy ==> Building(calls, due) && jsqr == old(jsqr) && loads == old(loads)
      ensures status == Ok && (!scanMode || c.conversions == 1) ==>
        if c.rank == Rank1 then
          && Building([c.Alone()], due)
          && jsqr == old(jsqr) - JsqrFields() + Image([c.Alone()]) && loads == old(loads) + [jsqr]
        else
          Building(calls, due) && jsqr == old(jsqr) && loads == old(loads)
      ensures status == Ok && scanMode && c.conversions != 1 ==>
        var now, left := Now(calls, due, c), Left(due, c);
        if left > 0 then Building(now, left) && jsqr == old(jsqr) && loads == old(loads)
        else Building([], 0) && jsqr == old(jsqr) - JsqrFields() + Image(now) && loads == old(loads) + [jsqr]
    {
      if locked {
        return HalBusy;
      }
      locked := true;
      if !scanMode || c.conversions == 1 {
        if c.rank == Rank1 {
          SingleRank(c);
        }
      } else {
        NextRank(c, calls, due);
      }
      locked := false;
      return Ok;
    }

    /** The branch of a single rank. */
    method SingleRank(c: Call)
      requires c.rank == Rank1
      modifies `contextQueue, `jsqr, `loads
      ensures contextQueue == Image([c.Alone()])
      ensures jsqr == old(jsqr) - JsqrFields() + contextQueue && loads == old(loads) + [jsqr]
    {
      var tmp;
      if c.trigger != SOFTWARE_START {
        tmp := AtRank(c.channel, Rank1) + c.trigger * JEXTSEL + c.EdgeBits();
      } else {
        tmp := AtRank(c.channel, Rank1);
      }
      assert [c.Alone()][..0] == [] && tmp == Part(c.Alone(), true);
      LoadContext(tmp);
      contextQueue := tmp;
    }

    /** The branch of several ranks: the first call starts the context, the last one loads it. */
    method NextRank(c: Call, ghost calls: seq<Call>, ghost due: nat)
      requires Building(calls, due) && c.conversions != 1
      modifies `channelCount, `contextQueue, `jsqr, `loads
      ensures var now, left := Now(calls, due, c), Left(due, c);
              if left > 0 then Building(now, left) && jsqr == old(jsqr) && loads == old(loads)
              else Building([], 0) && jsqr == old(jsqr) - JsqrFields() + Image(now) && loads == old(loads) + [jsqr]
    {
      var tmp: Bits := {};
      if channelCount == 0 {
        channelCount := c.conversions;
        contextQueue := {};
        if c.trigger != SOFTWARE_START {
          tmp := Less1(c.conversions) + c.trigger * JEXTSEL + c.EdgeBits();
        } else {
          tmp := Less1(c.conversions);
        }
      }
      ClearMaskEmpty(c.rank);
      tmp := tmp - AtRank(SQR3_SQ10, c.rank);
      tmp := tmp + AtRank(c.channel, c.rank);
      assert tmp == Part(c, due == 0);
      ImageGrows(calls, due, c);
      channelCount := channelCount - 1;
      contextQueue := contextQueue + tmp;
      if channelCount == 0 {
        LoadContext(contextQueue);
      }
    }
  }

  /** A context as its calls make it up: as many as the first one says, none of them for one conversion. */
  predicate Complete(calls: seq<Call>) {
    calls != [] && |calls| == calls[0].conversions && forall c | c in calls :: c.conversions != 1
  }

  /** JSQR after a series of contexts, and what was written to it. */
  function Loaded(jsqr: Bits, contexts: seq<seq<Call>>): (Bits, seq<Bits>) {
    if contexts == [] then (jsqr, [])
    else
      var (before, loads) := Loaded(jsqr, contexts[..|contexts| - 1]);
      var now := before - JsqrFields() + Image(contexts[|contexts| - 1]);
      (now, loads + [now])
  }

  /** A call in the middle of a context. */
  method AddRank(h: Handle, c: Call, ghost calls: seq<Call>, ghost due: nat) returns (ghost now: seq<Call>)
    requires h.scanMode && !h.locked && h.Building(calls, due) && due > 1 && c.conversions != 1
    modifies h
    ensures h.scanMode && !h.locked && h.Building(now, due - 1) && h.jsqr == old(h.jsqr) && h.loads == old(h.loads)
    ensures now == calls + [c]
  {
    now := calls + [c];
    var status := h.InjectedConfigChannel(c, calls, due);
  }

  lemma OneMore<T>(a: seq<T>, b: seq<T>, k: nat)
    requires k < |b|
    ensures (a + b[..k]) + [b[k]] == a + b[..k + 1]
  {
  }

  /** The first n calls of those still to come write nothing. */
  method AddRanks(h: Handle, calls: seq<Call>, n: nat, ghost before: seq<Call>, ghost due: nat)
    returns (ghost now: seq<Call>)
    requires (forall c | c in calls :: c.conversions != 1) && n <= |calls| && n < due
    requires h.scanMode && !h.locked && h.Building(before, due)
    modifies h
    ensures h.scanMode && !h.locked && now == before + calls[..n] && h.Building(now, due - n)
    ensures h.jsqr == old(h.jsqr) && h.loads == old(h.loads)
  {
    now := before;
    for k := 0 to n
      invariant h.scanMode && !h.locked && now == before + calls[..k] && h.Building(now, due - k)
      invariant h.jsqr == old(h.jsqr) && h.loads == old(h.loads)
    {
      assert calls[k] in calls;
      now := AddRank(h, calls[k], now, due - k);
      OneMore(before, calls, k);
    }
  }

  /** The calls from one on, the last of which loads the context. */
  method Continue(h: Handle, calls: seq<Call>, ghost before: seq<Call>)
    requires (forall c | c in calls :: c.conversions != 1) && calls != []
    requires h.scanMode && !h.locked && h.Building(before, |calls|)
    modifies h
    ensures h.scanMode && !h.locked && h.channelCount == 0
    ensures h.jsqr == old(h.jsqr) - JsqrFields() + Image(before + calls) && h.loads == old(h.loads) + [h.jsqr]
  {
    ghost var now := AddRanks(h, calls, |calls| - 1, before, |calls|);
    var last := calls[|calls| - 1];
    assert last in calls && now + [last] == before + calls;
    var status := h.InjectedConfigChannel(last, now, 1);
  }

  /** The first call of a context writes nothing. */
  method BeginFirst(h: Handle, c: Call)
    requires c.conversions != 1 && h.scanMode && !h.locked && h.channelCount == 0
    modifies h
    ensures h.scanMode && !h.locked && h.Building([c], c.conversions - 1)
    ensures h.jsqr == old(h.jsqr) && h.loads == old(h.loads)
  {
    var status := h.InjectedConfigChannel(c, [], 0);
  }

  lemma FirstAndRest(calls: seq<Call>, n: nat)
    requires Complete(calls) && 0 < n < |calls|
    ensures calls[0].conversions == |calls| != 1 && forall c | c in calls[1..] :: c.conversions != 1
    ensures [calls[0]] + calls[1..][..n - 1] == calls[..n]
  {
    assert calls[0] in calls;
  }

  /** The first n calls of a context write nothing. */
  method Begin(h: Handle, calls: seq<Call>, n: nat)
    requires Complete(calls) && 0 < n < |calls| && h.scanMode && !h.locked && h.channelCount == 0
    modifies h
    ensures h.scanMode && !h.locked && h.Building(calls[..n], |calls| - n)
    ensures h.jsqr == old(h.jsqr) && h.loads == old(h.loads)
  {
    FirstAndRest(calls, n);
    BeginFirst(h, calls[0]);
    ghost var now := AddRanks(h, calls[1..], n - 1, [calls[0]], |calls| - 1);
  }

  /** One context: JSQR is written once, by the last call. */
  method ConfigureContext(h: Handle, calls: seq<Call>)
    requires Complete(calls) && h.scanMode && !h.locked && h.channelCount == 0
    modifies h
    ensures h.scanMode && !h.locked && h.channelCount == 0
    ensures h.jsqr == old(h.jsqr) - JsqrFields() + Image(calls) && h.loads == old(h.loads) + [h.jsqr]
  {
    assert calls[0] in calls;
    Begin(h, calls, 1);
    assert calls[..1] + calls[1..] == calls;
    Continue(h, calls[1..], calls[..1]);
  }

  /**
   A call for one conversion in the middle of a context is loaded at once; the calls still to come
   then load what they add to it, and nothing of the calls before.
   */
  method ConfigureInterrupted(h: Handle, calls: seq<Call>, k: nat, c: Call)
    requires Complete(calls) && 0 < k < |calls| && h.scanMode && !h.locked && h.channelCount == 0
    requires c.rank == Rank1 && c.conversions == 1
    modifies h
    ensures h.channelCount == 0 && !h.locked
    ensures var single := old(h.jsqr) - JsqrFields() + Image([c]);
            && h.loads == old(h.loads) + [single] + [h.jsqr]
            && h.jsqr == single - JsqrFields() + Image([c] + calls[k..])
  {
    Begin(h, calls, k);
    var status := h.InjectedConfigChannel(c, calls[..k], |calls| - k);
    Continue(h, calls[k..], [c]);
  }

  /** That is never the context asked for: its length is that of one conversion. */
  lemma InterruptedIsLost(calls: seq<Call>, k: nat, c: Call)
    requires Complete(calls) && 0 < k < |calls| && c.rank == Rank1 && c.conversions == 1
    ensures var image := Image([c] + calls[k..]);
            && image != Image(calls) && 0 !in image && 1 !in image && image * (JEXTSEL + JEXTEN) == TriggerBits(c)
            && forall rank :: Field(image, rank) == Overlaid([c] + calls[k..], rank)
  {
    assert calls[0] in calls;
    ImageHead(calls);
    ImageHead([c] + calls[k..]);
    forall rank ensures Field(Image([c] + calls[k..]), rank) == Overlaid([c] + calls[k..], rank) {
      ImageFields([c] + calls[k..], rank);
    }
  }

  /** Any series of contexts: one write each, of that context's image, and nothing in between. */
  method ConfigureContexts(h: Handle, contexts: seq<seq<Call>>)
    requires (forall calls | calls in contexts :: Complete(calls)) && h.scanMode && !h.locked && h.channelCount == 0
    modifies h
    ensures h.channelCount == 0 && !h.locked
    ensures (h.jsqr, h.loads) == (Loaded(old(h.jsqr), contexts).0, old(h.loads) + Loaded(old(h.jsqr), contexts).1)
  {
    for k := 0 to |contexts|
      invariant h.scanMode && !h.locked && h.channelCount == 0
      invariant h.jsqr == Loaded(old(h.jsqr), contexts[..k]).0
      invariant h.loads == old(h.loads) + Loaded(old(h.jsqr), contexts[..k]).1
    {
      assert contexts[k] in contexts && contexts[..k + 1][..k] == contexts[..k];
      ConfigureContext(h, contexts[k]);
    }
    assert contexts[..|contexts|] == contexts;
  }
}
