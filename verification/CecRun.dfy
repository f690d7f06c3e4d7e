/** What the receive and transmit sides of the CEC driver do, event by event. */
module CecRun {
  import opened Words

  datatype Option<T> = None | Some(value: T)

  /** Flags of the interrupt register. */
  datatype Flag = RXBR | RXEND | RXOVR | BRE | SBPE | LBPE | RXACKE | ARBLST | TXBR | TXEND | TXUDR | TXERR | TXACKE

  const RX_ERRORS := {RXOVR, BRE, SBPE, LBPE, RXACKE}
  const TX_ERRORS := {TXUDR, TXERR, TXACKE}

  predicate AnyOf(flags: set<Flag>, mask: set<Flag>) { exists f :: f in flags && f in mask }

  /** The error flags, one by one. */
  lemma ErrorFlags(flags: set<Flag>)
    ensures AnyOf(flags, RX_ERRORS) <==>
      RXOVR in flags || BRE in flags || SBPE in flags || LBPE in flags || RXACKE in flags
    ensures AnyOf(flags, TX_ERRORS) <==> TXUDR in flags || TXERR in flags || TXACKE in flags
  {
  }

  /** One interrupt: its flags, the received byte, and the buffer the completion callback installs, if any. */
  datatype Event = Event(flags: set<Flag>, rxdr: Byte, change: Option<nat>)

  // Receiving

  /** A frame handed to the completion callback: where it lies, and its bytes. */
  datatype Frame = Frame(at: nat, data: seq<Byte>)

  /** The buffer in use, the bytes received since the last end or error, and the frames completed. */
  datatype Rx = Rx(base: nat, cur: seq<Byte>, frames: seq<Frame>) {
    function Byte(e: Event): Rx {
      if RXBR in e.flags then this.(cur := cur + [e.rxdr]) else this
    }

    /** The pointer moved back by a count kept in 16 bits, and what lies from there. */
    function Rewound(): nat {
      base + |cur| - Wrap16(|cur|)
    }

    function Seen(): seq<Byte> {
      cur[|cur| - Wrap16(|cur|)..]
    }

    /** The frame is handed over, and the next one begins. */
    function End(at: nat, data: seq<Byte>, change: Option<nat>): Rx {
      Rx(if change.Some? then change.value else at, [], frames + [Frame(at, data)])
    }

    function Failure(at: nat): Rx {
      Rx(at, [], frames)
    }

    /** One interrupt, as the code does it. */
    function Step(e: Event): Rx {
      Received(e).Failed(e.flags)
    }

    function Received(e: Event): Rx {
      Byte(e).Ended(e)
    }

    function Ended(e: Event): Rx {
      if RXEND in e.flags then End(Rewound(), Seen(), e.change) else this
    }

    function Failed(flags: set<Flag>): Rx {
      if AnyOf(flags, RX_ERRORS) then Failure(Rewound()) else this
    }

    /** One interrupt, as meant: the callback gets exactly the bytes of the frame, at the base of the buffer. */
    function Meant(e: Event): Rx {
      var r := Byte(e);
      var s := if RXEND in e.flags then r.End(r.base, r.cur, e.change) else r;
      if AnyOf(e.flags, RX_ERRORS) then s.Failure(s.base) else s
    }

    predicate Ends(e: Event) {
      RXEND in e.flags || AnyOf(e.flags, RX_ERRORS)
    }

    /**
     The 16-bit count loses nothing exactly as long as fewer than 65536 bytes arrive before an
     end or an error.
     */
    lemma StepExact(e: Event)
      ensures Step(e) == Meant(e) <==> !Ends(e) || |Byte(e).cur| < 0x1_0000
    {
      var r := Byte(e);
      r.RewindExact();
      if RXEND in e.flags {
        LastFrame(r.frames, Frame(r.Rewound(), r.Seen()), Frame(r.base, r.cur));
      }
    }

    /**
     What one interrupt does, flag by flag: a byte is appended, the end of a frame hands it over, each of the
     five receive errors drops what was received, and none of the other flags moves the reception.
     */
    lemma StepFlags(e: Event)
      ensures
        var dropped := RXOVR in e.flags || BRE in e.flags || SBPE in e.flags || LBPE in e.flags || RXACKE in e.flags;
        var bytes := if RXBR in e.flags then cur + [e.rxdr] else cur;
        && Step(e).cur == (if RXEND in e.flags || dropped then [] else bytes)
        && (RXEND !in e.flags ==> Step(e).frames == frames)
        && (RXEND !in e.flags ==>
              Step(e).base == if dropped then base + |bytes| - |bytes| % 0x1_0000 else base)
        && (RXEND in e.flags ==>
              var at := base + |bytes| - |bytes| % 0x1_0000;
              && Step(e).frames == frames + [Frame(at, bytes[at - base..])]
              && Step(e).base == if e.change.Some? then e.change.value else at)
    {
      ErrorFlags(e.flags);
      Wrap16Counts(|Byte(e).cur|);
    }

    lemma RewindExact()
      ensures Rewound() == base <==> |cur| < 0x1_0000
      ensures |cur| < 0x1_0000 ==> Seen() == cur
    {
    }
  }

  lemma LastFrame(frames: seq<Frame>, f: Frame, g: Frame)
    ensures frames + [f] == frames + [g] <==> f == g
  {
    assert (frames + [f])[|frames|] == f && (frames + [g])[|frames|] == g;
  }

  function RunOf(r: Rx, events: seq<Event>): Rx {
    if events == [] then r else RunOf(r, events[..|events| - 1]).Step(events[|events| - 1])
  }

  function MeantRun(r: Rx, events: seq<Event>): Rx {
    if events == [] then r else MeantRun(r, events[..|events| - 1]).Meant(events[|events| - 1])
  }

  /** Interrupt j of a run does not end 65536 bytes or more. */
  predicate FrameFits(r: Rx, events: seq<Event>, j: nat)
    requires j < |events|
  {
    var before := MeantRun(r, events[..j]);
    before.Ends(events[j]) ==> |before.Byte(events[j]).cur| < 0x1_0000
  }

  /** Two receptions of the same bytes of which the first has lost the frames or its place for good. */
  predicate Drifted(a: Rx, b: Rx) {
    a.cur == b.cur && |a.frames| == |b.frames| && (a.frames != b.frames || a.base > b.base)
  }

  lemma DriftLasts(a: Rx, b: Rx, e: Event)
    requires Drifted(a, b)
    ensures Drifted(a.Step(e), b.Meant(e))
  {
    if RXEND in e.flags {
      var f, g := Frame(a.Byte(e).Rewound(), a.Byte(e).Seen()), Frame(b.base, b.Byte(e).cur);
      FramesDiffer(a.frames, b.frames, f, g);
    }
  }

  lemma FramesDiffer(frames: seq<Frame>, others: seq<Frame>, f: Frame, g: Frame)
    requires |frames| == |others| && (frames != others || f != g)
    ensures frames + [f] != others + [g]
  {
    assert (frames + [f])[..|frames|] == frames && (others + [g])[..|frames|] == others;
    assert (frames + [f])[|frames|] == f && (others + [g])[|frames|] == g;
  }

  lemma DriftBegins(r: Rx, e: Event)
    requires r.Ends(e) && |r.Byte(e).cur| >= 0x1_0000
    ensures Drifted(r.Step(e), r.Meant(e))
  {
    var s := r.Byte(e);
    if RXEND in e.flags {
      FramesDiffer(r.frames, r.frames, Frame(s.Rewound(), s.Seen()), Frame(s.base, s.cur));
    }
  }

  /**
   Over a run, the code hands over the frames that were received, from where they were received,
   exactly if no end or error comes after 65536 bytes or more.  Nothing later makes up for one.
   */
  lemma {:induction false} RunExact(r: Rx, events: seq<Event>)
    ensures RunOf(r, events) == MeantRun(r, events) <==> forall j: nat | j < |events| :: FrameFits(r, events, j)
    ensures RunOf(r, events) == MeantRun(r, events) || Drifted(RunOf(r, events), MeantRun(r, events))
  {
    if events != [] {
      var n := |events| - 1;
      var init, last := events[..n], events[n];
      RunExact(r, init);
      forall j: nat | j < n ensures FrameFits(r, init, j) == FrameFits(r, events, j) {
        assert init[..j] == events[..j];
      }
      var a, b := RunOf(r, init), MeantRun(r, init);
      if a != b {
        DriftLasts(a, b, last);
      } else {
        b.StepExact(last);
        if !FrameFits(r, events, n) {
          DriftBegins(b, last);
        }
      }
    }
  }
}
