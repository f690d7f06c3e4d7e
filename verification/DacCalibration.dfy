/** HAL_DACEx_SelfCalibrate: a binary search against the channel's comparator. */
module DacCalibration {
  import opened Words

  datatype State = Ready | Busy
  datatype Status = Ok | Error | HalBusy
  datatype Channel = Channel1 | Channel2

  /** The comparator is high from a trim of `threshold` up. */
  predicate High(threshold: int, trim: int) { trim >= threshold }

  // The search, for any width of trim

  /** The search from a trim in steps of delta, halved down to 0, with the last correction. */
  function Descend(threshold: int, trim: int, delta: nat): int
    decreases delta
  {
    if delta == 0 then (if High(threshold, trim) then trim else trim + 1)
    else Descend(threshold, if High(threshold, trim) then trim - delta else trim + delta, delta / 2)
  }

  /** Where the threshold can still be: above trim - h, up to trim + h. */
  predicate Bracket(threshold: int, trim: int, h: int) {
    trim - h < threshold <= trim + h
  }

  /** The half width of the bracket at a step. */
  function HalfWidth(delta: nat): nat { if delta == 0 then 1 else 2 * delta }

  /** Within the bracket the search finds the threshold; outside it ends at the nearer end. */
  lemma {:induction false} DescendFinds(threshold: int, trim: int, delta: nat, k: nat)
    requires delta == if k == 0 then 0 else Pow2(k - 1)
    ensures var h := HalfWidth(delta);
            && (Bracket(threshold, trim, h) ==> Descend(threshold, trim, delta) == threshold)
            && (threshold <= trim - h ==> Descend(threshold, trim, delta) == trim - h + 1)
            && (threshold > trim + h ==> Descend(threshold, trim, delta) == trim + h)
    decreases k
  {
    if k > 0 {
      assert delta / 2 == if k == 1 then 0 else Pow2(k - 2);
      DescendFinds(threshold, if High(threshold, trim) then trim - delta else trim + delta, delta / 2, k - 1);
    }
  }

  /** From the middle of a w-bit range the search finds every threshold from 1 to 2^w. */
  lemma SearchFinds(threshold: int, w: nat)
    requires w >= 2
    ensures Descend(threshold, Pow2(w - 1), Pow2(w - 2)) == Nearest(threshold, Pow2(w))
  {
    DescendFinds(threshold, Pow2(w - 1), Pow2(w - 2), w - 1);
  }

  function Nearest(threshold: int, top: int): int {
    if threshold < 1 then 1 else if threshold > top then top else threshold
  }

  // The registers

  /** A trim field holds five bits. */
  type Trim = t: nat | t < 32

  /**
   One channel's half of each register: control, mode, calibration and data.  A channel's fields
   lie at the same place of both halves; `above` holds the calibration bits above the trim field.
   */
  datatype Half = Half(enabled: bool, calibrating: bool, crRest: nat, mode: nat, mcrRest: nat,
                       trim: Trim, above: nat, data: nat)
  {
    /** MODIFY_REG of the trim field: the old field is cleared, the value is or-ed in unmasked. */
    function WithTrim(value: nat): Half
      requires value <= 32
    {
      if value < 32 then this.(trim := value)
      else this.(trim := 0, above := if above % 2 == 1 then above else above + 1)
    }
  }

  class ChannelConfig {
    var trimmingValue: nat
    var userTrimming: bool

    constructor ()
    {
      trimmingValue, userTrimming := 0, false;
    }
  }

  class Handle {
    var state: State
    var locked: bool
    var half1: Half
    var half2: Half

    constructor (half1: Half, half2: Half)
      ensures this.half1 == half1 && this.half2 == half2 && state == Ready && !locked
    {
      this.half1, this.half2, state, locked := half1, half2, Ready, false;
    }

    function Of(c: Channel): Half
      reads `half1, `half2
    {
      if c == Channel1 then half1 else half2
    }

    function Other(c: Channel): Half
      reads `half1, `half2
    {
      if c == Channel1 then half2 else half1
    }

    method Write(c: Channel, half: Half)
      modifies `half1, `half2
      ensures Of(c) == half && Other(c) == old(Other(c))
    {
      if c == Channel1 {
        half1 := half;
      } else {
        half2 := half;
      }
    }

    /** What calibration leaves of a channel's half; the channel stays disabled. */
    function Calibrated(half: Half, threshold: int): Half {
      half.(enabled := false, calibrating := false, data := 0x800).WithTrim(Nearest(threshold, 32))
    }

    method SelfCalibrate(config: ChannelConfig, c: Channel, threshold: int) returns (status: Status)
      modifies this, config
      ensures status == if old(state) == Busy then Error else if old(locked) then HalBusy else Ok
      ensures state == old(state) && locked == old(locked) && Other(c) == old(Other(c))
      ensures status == Ok ==>
        && Of(c) == Calibrated(old(Of(c)), threshold)
        && config.trimmingValue == Nearest(threshold, 32) && config.userTrimming
      ensures status == Ok ==>
        && !Of(c).enabled && !Of(c).calibrating && Of(c).data == 0x800
        && Of(c).mode == old(Of(c).mode) && Of(c).crRest == old(Of(c).crRest) && Of(c).mcrRest == old(Of(c).mcrRest)
        && Of(c).trim == (if threshold < 1 then 1 else if threshold < 32 then threshold else 0)
        && config.trimmingValue == (if threshold < 1 then 1 else if threshold > 32 then 32 else threshold)
      ensures status != Ok ==>
        Of(c) == old(Of(c)) && config.trimmingValue == old(config.trimmingValue)
          && config.userTrimming == old(config.userTrimming)
    {
      if state == Busy {
        return Error;
      }
      if locked {
        return HalBusy;
      }
      locked := true;
      var oldMode := Of(c).mode;
      Write(c, Of(c).(enabled := false));
      Write(c, Of(c).(mode := 0));
      Write(c, Of(c).(data := 0x800));
      Write(c, Of(c).(calibrating := true));
      var trim := FindTrim(c, threshold);
      Write(c, Of(c).(calibrating := false));
      config.trimmingValue := trim;
      config.userTrimming := true;
      Write(c, Of(c).(mode := oldMode));
      locked := false;
      return Ok;
    }

    /** One candidate is written and compared. */
    method Candidate(c: Channel, threshold: int, trim: nat, delta: nat) returns (next: nat)
      requires delta <= trim && trim < 32
      modifies `half1, `half2
      ensures next == if High(threshold, trim) then trim - delta else trim + delta
      ensures Of(c) == old(Of(c)).(trim := trim) && Other(c) == old(Other(c))
    {
      Write(c, Of(c).WithTrim(trim));
      if High(threshold, Of(c).trim) {
        next := trim - delta;
      } else {
        next := trim + delta;
      }
    }

    /** The loop: each candidate is written before the flag is looked at. */
    method FindTrim(c: Channel, threshold: int) returns (trimmingValue: nat)
      modifies `half1, `half2
      ensures trimmingValue == Nearest(threshold, 32) && Other(c) == old(Other(c))
      ensures Of(c) == old(Of(c)).WithTrim(trimmingValue)
    {
      trimmingValue := 16;
      var delta: nat := 8;
      ghost var first := Of(c);
      DescendFinds(threshold, 16, 8, 4);
      assert Pow2(3) == 8;
      while delta != 0
        invariant delta == 8 || delta == 4 || delta == 2 || delta == 1 || delta == 0
        invariant HalfWidth(delta) <= trimmingValue <= 32 - HalfWidth(delta)
        invariant Descend(threshold, trimmingValue, delta) == Nearest(threshold, 32)
        invariant 1 <= threshold <= 32 ==> Bracket(threshold, trimmingValue, HalfWidth(delta))
        invariant Other(c) == old(Other(c)) && Of(c) == first.(trim := Of(c).trim)
        decreases delta
      {
        trimmingValue := Candidate(c, threshold, trimmingValue, delta);
        delta := delta / 2;
      }
      Write(c, Of(c).WithTrim(trimmingValue));
      if !High(threshold, Of(c).trim) {
        trimmingValue := trimmingValue + 1;
        Write(c, Of(c).WithTrim(trimmingValue));
      }
    }
  }

  /**
   The threshold ends up in the channel's trim field, and nothing else of the register changes,
   exactly when the field can hold it and it is not 0, which the search never tries.
   */
  lemma CalibrationExact(half: Half, threshold: int)
    ensures half.WithTrim(Nearest(threshold, 32)).trim == threshold <==> 1 <= threshold <= 31
    ensures 1 <= threshold <= 31 ==> half.WithTrim(threshold) == half.(trim := threshold)
  {
  }

  /** A comparator that is already high at trim 0 is trimmed to 1; one that never rises overflows into the next bit. */
  lemma CalibrationFails(half: Half)
    ensures half.WithTrim(Nearest(0, 32)).trim == 1 && half.WithTrim(Nearest(32, 32)).trim == 0
    ensures half.WithTrim(Nearest(32, 32)).above == half.above + if half.above % 2 == 1 then 0 else 1
  {
  }
}
