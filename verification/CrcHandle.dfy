/** HAL_CRC_Accumulate and HAL_CRC_Calculate, and when their packing is visible. */
module CrcHandle {
  import opened Crc
  import opened CrcRemainder
  import W = Words

  datatype State = Ready | Busy

  /** A buffer, as the input data format of the handle reads it. */
  datatype Data = Unformatted | Bytes(bytes: seq<bv8>) | Halfwords(halves: seq<bv16>) | Words(words: seq<bv32>) {
    function Length(): nat {
      match this case Unformatted => 0 case Bytes(b) => |b| case Halfwords(h) => |h| case Words(w) => |w|
    }

    predicate SameFormat(d: Data) {
      match this
      case Unformatted => d.Unformatted?
      case Bytes(_) => d.Bytes?
      case Halfwords(_) => d.Halfwords?
      case Words(_) => d.Words?
    }

    function Append(d: Data): Data
      requires SameFormat(d)
    {
      match this
      case Unformatted => Unformatted
      case Bytes(b) => Bytes(b + d.bytes)
      case Halfwords(h) => Halfwords(h + d.halves)
      case Words(w) => Words(w + d.words)
    }

    /** The bits of one unit of the format. */
    function UnitBits(): nat {
      match this case Unformatted => 32 case Bytes(_) => 8 case Halfwords(_) => 16 case Words(_) => 32
    }
  }

  /** What the driver enters: bytes and half-words packed. */
  function Packed(inv: Inversion, d: Data): seq<bool> {
    match d
    case Unformatted => []
    case Bytes(b) => Packed8(inv, b)
    case Halfwords(h) => Packed16(inv, h)
    case Words(w) => ByWords(inv, w)
  }

  /** The same data one unit of the format at a time. */
  function Unpacked(inv: Inversion, d: Data): seq<bool> {
    match d
    case Unformatted => []
    case Bytes(b) => ByBytes(inv, b)
    case Halfwords(h) => ByHalves(inv, h)
    case Words(w) => ByWords(inv, w)
  }

  /** The inversions under which a format may be packed. */
  predicate Matching(inv: Inversion, d: Data) {
    Width(inv) <= d.UnitBits()
  }

  /** The fast form refines the simple one under matching inversions. */
  lemma PackedAgrees(inv: Inversion, d: Data)
    requires Matching(inv, d)
    ensures Packed(inv, d) == Unpacked(inv, d)
  {
    match d
    case Unformatted =>
    case Bytes(b) => PackedBytesAgree(inv, b);
    case Halfwords(h) => PackedHalvesAgree(inv, h);
    case Words(_) =>
  }

  lemma {:induction false} ByBytesJoin(inv: Inversion, a: seq<bv8>, b: seq<bv8>)
    ensures ByBytes(inv, a + b) == ByBytes(inv, a) + ByBytes(inv, b)
  {
    if a == [] {
      assert a + b == b;
    } else {
      ByBytesJoin(inv, a[1..], b);
      assert (a + b)[1..] == a[1..] + b;
      W.Associate(Enter8(inv, a[0]), ByBytes(inv, a[1..]), ByBytes(inv, b));
    }
  }

  lemma {:induction false} ByHalvesJoin(inv: Inversion, a: seq<bv16>, b: seq<bv16>)
    ensures ByHalves(inv, a + b) == ByHalves(inv, a) + ByHalves(inv, b)
  {
    if a == [] {
      assert a + b == b;
    } else {
      ByHalvesJoin(inv, a[1..], b);
      assert (a + b)[1..] == a[1..] + b;
      W.Associate(Enter16(inv, a[0]), ByHalves(inv, a[1..]), ByHalves(inv, b));
    }
  }

  lemma {:induction false} ByWordsJoin(inv: Inversion, a: seq<bv32>, b: seq<bv32>)
    ensures ByWords(inv, a + b) == ByWords(inv, a) + ByWords(inv, b)
  {
    if a == [] {
      assert a + b == b;
    } else {
      ByWordsJoin(inv, a[1..], b);
      assert (a + b)[1..] == a[1..] + b;
      W.Associate(Enter32(inv, a[0]), ByWords(inv, a[1..]), ByWords(inv, b));
    }
  }

  /** Under matching inversions, data may be cut anywhere, even inside what one call would pack. */
  lemma PackedJoin(inv: Inversion, a: Data, b: Data)
    requires a.SameFormat(b) && Matching(inv, a)
    ensures Packed(inv, a.Append(b)) == Packed(inv, a) + Packed(inv, b)
  {
    PackedAgrees(inv, a);
    PackedAgrees(inv, b);
    PackedAgrees(inv, a.Append(b));
    match a
    case Unformatted =>
    case Bytes(x) => ByBytesJoin(inv, x, b.bytes);
    case Halfwords(x) => ByHalvesJoin(inv, x, b.halves);
    case Words(x) => ByWordsJoin(inv, x, b.words);
  }

  /** What data of a format leave in the register is a CRC. */
  lemma PackedFeed(u: Unit, s: W.Word, inv: Inversion, d: Data)
    ensures d.Length() > 0 ==> IsCrc(u.poly, u.Length(), s, Packed(inv, d), u.Feed(s, Packed(inv, d)))
  {
    if d.Length() > 0 {
      FeedIsCrc(u, s, Packed(inv, d));
    }
  }

  lemma JoinedCrc(u: Unit, s: W.Word, inv: Inversion, d: Data)
    requires Matching(inv, d)
    ensures Packed(inv, d) == Unpacked(inv, d)
    ensures d.Length() > 0 ==> IsCrc(u.poly, u.Length(), s, Unpacked(inv, d), u.Feed(s, Packed(inv, d)))
  {
    PackedAgrees(inv, d);
    PackedFeed(u, s, inv, d);
  }

  class Handle {
    var state: State
    var unit: Unit               // POL and CR.POLYSIZE
    var inversion: Inversion     // CR.REV_IN
    var start: W.Word             // INIT
    var dr: W.Word                // DR

    constructor (unit: Unit, inversion: Inversion, start: W.Word)
      ensures this.unit == unit && this.inversion == inversion && this.start == start && state == Ready && dr == start
    {
      this.unit, this.inversion, this.start, state, dr := unit, inversion, start, Ready, start;
    }

    method WriteByte(x: bv8)
      modifies `dr
      ensures dr == unit.Feed(old(dr), Enter8(inversion, x))
    {
      dr := unit.Feed(dr, Enter8(inversion, x));
    }

    method WriteHalf(x: bv16)
      modifies `dr
      ensures dr == unit.Feed(old(dr), Enter16(inversion, x))
    {
      dr := unit.Feed(dr, Enter16(inversion, x));
    }

    method WriteWord(x: bv32)
      modifies `dr
      ensures dr == unit.Feed(old(dr), Enter32(inversion, x))
    {
      dr := unit.Feed(dr, Enter32(inversion, x));
    }

    /** The last bytes: one of them, a half-word, or a half-word and a byte. */
    method HandleRest(rest: seq<bv8>)
      requires 0 < |rest| < 4
      modifies `dr
      ensures dr == unit.Feed(old(dr), Packed8(inversion, rest))
    {
      if |rest| == 1 {
        WriteByte(rest[0]);
      }
      if |rest| == 2 {
        assert Packed8(inversion, rest) == Enter16(inversion, Pack2(rest[0], rest[1]));
        WriteHalf(((rest[0] as bv16) << 8) | (rest[1] as bv16));
      }
      if |rest| == 3 {
        unit.FeedJoin(dr, Enter16(inversion, Pack2(rest[0], rest[1])), Enter8(inversion, rest[2]));
        WriteHalf(((rest[0] as bv16) << 8) | (rest[1] as bv16));
        WriteByte(rest[2]);
      }
    }

    /** Four bytes in one write: what is still to be fed is the rest. */
    method WriteFour(buffer: seq<bv8>, i: nat)
      requires 4 * i + 4 <= |buffer|
      modifies `dr
      ensures unit.Feed(dr, Packed8(inversion, buffer[4 * (i + 1)..]))
        == unit.Feed(old(dr), Packed8(inversion, buffer[4 * i..]))
    {
      ghost var rest := buffer[4 * i..];
      unit.FeedJoin(dr, Enter32(inversion, Pack4(rest[0], rest[1], rest[2], rest[3])), Packed8(inversion, rest[4..]));
      assert rest[4..] == buffer[4 * (i + 1)..];
      WriteWord(((buffer[4 * i] as bv32) << 24) | ((buffer[4 * i + 1] as bv32) << 16)
                | ((buffer[4 * i + 2] as bv32) << 8) | (buffer[4 * i + 3] as bv32));
    }

    /** Two half-words in one write. */
    method WriteTwo(buffer: seq<bv16>, i: nat)
      requires 2 * i + 2 <= |buffer|
      modifies `dr
      ensures unit.Feed(dr, Packed16(inversion, buffer[2 * (i + 1)..]))
        == unit.Feed(old(dr), Packed16(inversion, buffer[2 * i..]))
    {
      ghost var rest := buffer[2 * i..];
      unit.FeedJoin(dr, Enter32(inversion, PackHalves(rest[0], rest[1])), Packed16(inversion, rest[2..]));
      assert rest[2..] == buffer[2 * (i + 1)..];
      WriteWord(((buffer[2 * i] as bv32) << 16) | (buffer[2 * i + 1] as bv32));
    }

    /** CRC_Handle_8. */
    method Handle8(buffer: seq<bv8>) returns (r: W.Word)
      modifies `dr
      ensures r == dr == unit.Feed(old(dr), Packed8(inversion, buffer))
    {
      var i := 0;
      while i < |buffer| / 4
        invariant 4 * i <= |buffer|
        invariant unit.Feed(dr, Packed8(inversion, buffer[4 * i..])) == unit.Feed(old(dr), Packed8(inversion, buffer))
      {
        WriteFour(buffer, i);
        i := i + 1;
      }
      if |buffer| % 4 != 0 {
        HandleRest(buffer[4 * i..]);
      }
      r := dr;
    }

    /** CRC_Handle_16. */
    method Handle16(buffer: seq<bv16>) returns (r: W.Word)
      modifies `dr
      ensures r == dr == unit.Feed(old(dr), Packed16(inversion, buffer))
    {
      var i := 0;
      while i < |buffer| / 2
        invariant 2 * i <= |buffer|
        invariant unit.Feed(dr, Packed16(inversion, buffer[2 * i..])) == unit.Feed(old(dr), Packed16(inversion, buffer))
      {
        WriteTwo(buffer, i);
        i := i + 1;
      }
      if |buffer| % 2 != 0 {
        WriteHalf(buffer[2 * i]);
      }
      r := dr;
    }

    /** Word format: one write each. */
    method HandleWords(buffer: seq<bv32>) returns (r: W.Word)
      modifies `dr
      ensures r == dr == unit.Feed(old(dr), ByWords(inversion, buffer))
    {
      var index := 0;
      while index < |buffer|
        invariant index <= |buffer|
        invariant unit.Feed(dr, ByWords(inversion, buffer[index..])) == unit.Feed(old(dr), ByWords(inversion, buffer))
      {
        unit.FeedJoin(dr, Enter32(inversion, buffer[index]), ByWords(inversion, buffer[index + 1..]));
        assert buffer[index..][1..] == buffer[index + 1..];
        WriteWord(buffer[index]);
        index := index + 1;
      }
      r := dr;
    }

    /** HAL_CRC_Accumulate: goes on from the register; data without a format enter nothing and give 0. */
    method Accumulate(buffer: Data) returns (temp: W.Word)
      modifies `state, `dr
      ensures state == Ready && dr == unit.Feed(old(dr), Packed(inversion, buffer))
      ensures buffer.Length() > 0 ==> IsCrc(unit.poly, unit.Length(), old(dr), Packed(inversion, buffer), dr)
      ensures temp == if buffer.Unformatted? then 0 else dr
    {
      state := Busy;
      temp := 0;
      match buffer {
        case Words(w) => temp := HandleWords(w);
        case Bytes(b) => temp := Handle8(b);
        case Halfwords(h) => temp := Handle16(h);
        case Unformatted =>
      }
      state := Ready;
      PackedFeed(unit, old(dr), inversion, buffer);
    }

    /** HAL_CRC_Calculate: restarts from INIT. */
    method Calculate(buffer: Data) returns (temp: W.Word)
      modifies `state, `dr
      ensures state == Ready && dr == unit.Feed(start, Packed(inversion, buffer))
      ensures buffer.Length() > 0 ==> IsCrc(unit.poly, unit.Length(), start, Packed(inversion, buffer), dr)
      ensures temp == if buffer.Unformatted? then 0 else dr
    {
      state := Busy;
      dr := start;
      temp := 0;
      match buffer {
        case Words(w) => temp := HandleWords(w);
        case Bytes(b) => temp := Handle8(b);
        case Halfwords(h) => temp := Handle16(h);
        case Unformatted =>
      }
      state := Ready;
      PackedFeed(unit, start, inversion, buffer);
    }

    /** An Accumulate onto what is in already. */
    method AccumulateOnto(ghost before: Data, next: Data) returns (r: W.Word)
      requires before.SameFormat(next) && !before.Unformatted? && Matching(inversion, before)
      requires dr == unit.Feed(start, Packed(inversion, before))
      modifies `state, `dr
      ensures r == dr == unit.Feed(start, Packed(inversion, before.Append(next)))
    {
      PackedJoin(inversion, before, next);
      unit.FeedJoin(start, Packed(inversion, before), Packed(inversion, next));
      r := Accumulate(next);
    }

    /** One Calculate and any number of further Accumulate calls leave the simple CRC of all the data. */
    method CalculateInMany(first: Data, more: seq<Data>) returns (r: W.Word)
      requires !first.Unformatted? && Matching(inversion, first) && forall d | d in more :: first.SameFormat(d)
      modifies `state, `dr
      ensures r == dr == unit.Feed(start, Unpacked(inversion, Joined(first, more)))
      ensures first.Length() > 0 ==>
        IsCrc(unit.poly, unit.Length(), start, Unpacked(inversion, Joined(first, more)), r)
    {
      r := Calculate(first);
      PackedAgrees(inversion, first);
      for k := 0 to |more|
        invariant r == dr == unit.Feed(start, Packed(inversion, Joined(first, more[..k])))
      {
        JoinedOn(first, more, k);
        r := AccumulateOnto(Joined(first, more[..k]), more[k]);
      }
      assert more[..|more|] == more;
      JoinedCrc(unit, start, inversion, Joined(first, more));
    }
  }

  lemma JoinedOn(first: Data, more: seq<Data>, k: nat)
    requires k < |more| && forall d | d in more :: first.SameFormat(d)
    ensures first.SameFormat(Joined(first, more[..k])) && Joined(first, more[..k]).SameFormat(more[k])
    ensures Joined(first, more[..k + 1]) == Joined(first, more[..k]).Append(more[k])
  {
    assert more[..k + 1][..k] == more[..k] && more[k] in more;
  }

  function Joined(first: Data, more: seq<Data>): (d: Data)
    requires forall d | d in more :: first.SameFormat(d)
    ensures first.SameFormat(d) && d.Length() >= first.Length()
  {
    if more == [] then first
    else
      var last := more[|more| - 1];
      assert last in more;
      var before := Joined(first, more[..|more| - 1]);
      assert first.SameFormat(before) && first.SameFormat(last);
      before.Append(last)
  }
}
