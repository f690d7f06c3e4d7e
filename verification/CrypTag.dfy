/** The GCM authentication tag: HAL_CRYPEx_AESGCM_GenerateAuthTAG. */
module CrypTag {
  import opened Words
  import opened CrypCore
  import opened CrypHandle

  /** The bits of a header of `size` words or bytes. */
  function HeaderBits(unit: SizeUnit, size: nat): nat {
    if unit == InBytes then size * 32 / 4 else size * 32
  }

  /** The block the driver sends: the low words of the two bit counts. */
  function LengthBlock(headerBits: nat, sizesSum: nat): Block {
    Block(0, headerBits % 0x1_0000_0000, 0, sizesSum * 8 % 0x1_0000_0000)
  }

  /** NIST SP 800-38D, section 7.1: the two bit lengths, 64 bits each, high word first. */
  function NistLengthBlock(headerBits: nat, payloadBits: nat): Block
    requires headerBits < 0x1_0000_0000 * 0x1_0000_0000 && payloadBits < 0x1_0000_0000 * 0x1_0000_0000
  {
    Block(headerBits / 0x1_0000_0000, headerBits % 0x1_0000_0000, payloadBits / 0x1_0000_0000,
          payloadBits % 0x1_0000_0000)
  }

  /** The driver's block is the standard's exactly when both lengths fit in 32 bits. */
  lemma {:induction false} LengthBlockExact(unit: SizeUnit, size: nat, total: nat)
    requires size < 0x1_0000_0000 && 8 * total < 0x1_0000_0000 * 0x1_0000_0000
    ensures HeaderBits(unit, size) == if unit == InBytes then 8 * size else 32 * size
    ensures
      var headerBits := HeaderBits(unit, size);
      LengthBlock(headerBits, total % 0x1_0000_0000) == NistLengthBlock(headerBits, 8 * total)
      <==> headerBits < 0x1_0000_0000 && 8 * total < 0x1_0000_0000
  {
    LowWordOfBits(total, total / 0x1_0000_0000, total % 0x1_0000_0000);
  }

  /** Reducing the byte count to 32 bits does not change the low word of the bit count. */
  lemma LowWordOfBits(total: nat, high: nat, low: nat)
    requires total == 0x1_0000_0000 * high + low && low < 0x1_0000_0000
    ensures low * 8 % 0x1_0000_0000 == 8 * total % 0x1_0000_0000
  {
    var q, r := low * 8 / 0x1_0000_0000, low * 8 % 0x1_0000_0000;
    assert 8 * total == 0x1_0000_0000 * (8 * high + q) + r;
  }

  /** The core of the final phase, which always encrypts. */
  function FinalCore(h: Handle): Core
    reads h
  {
    h.Engine().(mode := h.Engine().mode.(direction := Encryption, phase := FinalPhase))
  }

  /** The final phase: length block in, tag out, peripheral off. */
  method FinalPhaseTag(h: Handle, tag: array<Word>)
    requires h.init.algorithm == Gcm && h.Drained() && tag.Length >= 4
    modifies h`enabled, h`direction, h`gcmPhase, h`chain, h`inFifo, h`outFifo, h`din, tag
    ensures h.Drained() && !h.enabled && h.Engine() == old(FinalCore(h))
    ensures var block := LengthBlock(HeaderBits(h.init.headerUnit, h.init.headerSize), h.sizesSum);
            && h.din == old(h.din) + block.Words()
            && tag[..4] == old(FinalCore(h)).Out(old(h.chain), block).Words()
            && tag[4..] == old(tag[4..])
  {
    h.Disable();
    h.gcmPhase := FinalPhase;
    h.direction := Encryption;
    h.Enable();
    SendLengths(h, HeaderBits(h.init.headerUnit, h.init.headerSize), h.sizesSum * 8);
    ReadTag(h, tag);
    h.Disable();
  }

  /**
   The tag is what the core in its final phase makes of the length block.  A call out of sequence
   leaves the chaining state alone.
   */
  method GenerateAuthTag(h: Handle, tag: array<Word>) returns (status: Status)
    requires h.init.algorithm == Gcm && (h.state == Ready ==> h.Drained()) && tag.Length >= 4
    modifies h`state, h`locked, h`errors, h`messagePhase, h`enabled, h`direction, h`gcmPhase
    modifies h`chain, h`inFifo, h`outFifo, h`din, tag
    ensures status == if old(h.state) != Ready then Error else if old(h.locked) then HalBusy
                      else if old(h.messagePhase) != Process then Error else Ok
    ensures status == Ok ==>
      && h.state == Ready && !h.locked && h.Drained() && !h.enabled && h.messagePhase == Final
      && h.errors == old(h.errors)
      && h.Engine() == old(FinalCore(h))
      && var block := LengthBlock(HeaderBits(h.init.headerUnit, h.init.headerSize), h.sizesSum);
         && h.din == old(h.din) + block.Words()
         && tag[..4] == old(FinalCore(h)).Out(old(h.chain), block).Words()
         && tag[4..] == old(tag[4..])
    ensures status != Ok ==>
      && h.din == old(h.din) && h.chain == old(h.chain) && tag[..] == old(tag[..])
      && h.messagePhase == old(h.messagePhase)
      && h.state == old(h.state)
      && h.errors == old(h.errors) + if old(h.state) != Ready then {BusyError} else if old(h.locked) then {}
           else {AuthTagSequence}
  {
    if h.state != Ready {
      h.errors := h.errors + {BusyError};
      return Error;
    }
    if h.locked {
      return HalBusy;
    }
    h.locked := true;
    h.state := Busy;
    if h.messagePhase == Process {
      h.messagePhase := Final;
    } else {
      h.Disable();
      h.errors := h.errors + {AuthTagSequence};
      h.state := Ready;
      h.locked := false;
      return Error;
    }
    FinalPhaseTag(h, tag);
    h.state := Ready;
    h.locked := false;
    return Ok;
  }

  /** Four words to DIN, and through the core. */
  method SendLengths(h: Handle, headerlength: nat, inputlength: nat)
    requires h.Drained() && h.enabled && !h.AbsorbsOnly()
    modifies h`chain, h`inFifo, h`outFifo, h`din
    ensures var block := Block(0, headerlength % 0x1_0000_0000, 0, inputlength % 0x1_0000_0000);
            && h.din == old(h.din) + block.Words()
            && h.inFifo == [] && h.outFifo == h.Engine().Out(old(h.chain), block).Words()
  {
    h.WriteDin(0);
    h.WriteDin(headerlength % 0x1_0000_0000);
    h.WriteDin(0);
    h.WriteDin(inputlength % 0x1_0000_0000);
    h.CoreStep();
  }

  method ReadTag(h: Handle, tag: array<Word>)
    requires |h.outFifo| == 4 && tag.Length >= 4
    modifies h`outFifo, tag
    ensures h.outFifo == [] && tag[..4] == old(h.outFifo) && tag[4..] == old(tag[4..])
  {
    tag[0] := h.ReadDout();
    tag[1] := h.ReadDout();
    tag[2] := h.ReadDout();
    tag[3] := h.ReadDout();
  }
}
