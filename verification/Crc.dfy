/** The CRC unit, bit by bit, and the driver's packed way of feeding it. */
module Crc {
  import opened Words

  datatype Inversion = NoInversion | ByteWise | HalfwordWise | WordWise

  /** The bits of the blocks reversed by an inversion mode. */
  function Width(inv: Inversion): nat {
    match inv
    case NoInversion => 1
    case ByteWise => 8
    case HalfwordWise => 16
    case WordWise => 32
  }

  // Numbers and their bits, the most significant first

  function Bits(v: nat, n: nat): (s: seq<bool>)
    ensures |s| == n
  {
    if n == 0 then [] else Bits(v / 2, n - 1) + [v % 2 == 1]
  }

  function Number(bits: seq<bool>): (v: nat)
    ensures v < Pow2(|bits|)
  {
    if bits == [] then 0 else 2 * Number(bits[..|bits| - 1]) + Digit(bits[|bits| - 1])
  }

  function Digit(b: bool): nat { if b then 1 else 0 }

  lemma {:induction false} BitsOfNumber(bits: seq<bool>)
    ensures Bits(Number(bits), |bits|) == bits
  {
    if bits != [] {
      BitsOfNumber(bits[..|bits| - 1]);
    }
  }

  lemma {:induction false} NumberOfBits(v: nat, n: nat)
    requires v < Pow2(n)
    ensures Number(Bits(v, n)) == v
  {
    if n > 0 {
      NumberOfBits(v / 2, n - 1);
      assert Bits(v, n)[..n - 1] == Bits(v / 2, n - 1);
    }
  }

  function XorBits(a: seq<bool>, b: seq<bool>): (r: seq<bool>)
    requires |a| == |b|
    ensures |r| == |a| && forall i | 0 <= i < |r| :: r[i] == (a[i] != b[i])
  {
    seq(|a|, i requires 0 <= i < |a| => a[i] != b[i])
  }

  lemma FirstOf<T>(a: seq<T>, b: seq<T>)
    requires a != []
    ensures (a + b)[0] == a[0] && (a + b)[1..] == a[1..] + b
  {
  }

  lemma ShiftsAdd(r: seq<bool>, t: seq<bool>)
    requires |r| == |t| > 0
    ensures XorBits(r, t)[1..] + [false] == XorBits(r[1..] + [false], t[1..] + [false])
  {
  }

  lemma XorRegroups(r: seq<bool>, t: seq<bool>, p: seq<bool>)
    requires |r| == |t| == |p|
    ensures XorBits(XorBits(r, p), t) == XorBits(r, XorBits(t, p)) == XorBits(XorBits(r, t), p)
    ensures XorBits(XorBits(r, p), XorBits(t, p)) == XorBits(r, t)
  {
  }

  // The unit

  datatype Size = Size7 | Size8 | Size16 | Size32

  /** A polynomial and its size. */
  datatype Unit = Unit(poly: Word, size: Size) {
    /** The bits of the register. */
    function Length(): (n: nat)
      ensures 0 < n <= 32
    {
      match size case Size7 => 7 case Size8 => 8 case Size16 => 16 case Size32 => 32
    }

    /** One bit of data enters. */
    function Step(r: seq<bool>, b: bool): (s: seq<bool>)
      requires |r| == Length()
      ensures |s| == Length()
    {
      var shifted := r[1..] + [false];
      if r[0] != b then XorBits(shifted, Bits(poly, Length())) else shifted
    }

    function Steps(r: seq<bool>, bits: seq<bool>): (s: seq<bool>)
      requires |r| == Length()
      ensures |s| == Length()
      decreases |bits|
    {
      if bits == [] then r else Steps(Step(r, bits[0]), bits[1..])
    }

    /** Bits enter the register with value s. */
    function Feed(s: Word, bits: seq<bool>): Word {
      PowersOrdered(Length(), 32);
      LengthPowers();
      if bits == [] then s else Number(Steps(Bits(s, Length()), bits))
    }

    lemma {:induction false} StepsJoin(r: seq<bool>, a: seq<bool>, b: seq<bool>)
      requires |r| == Length()
      ensures Steps(r, a + b) == Steps(Steps(r, a), b)
      decreases |a|
    {
      if a == [] {
        assert a + b == b;
      } else {
        StepsJoin(Step(r, a[0]), a[1..], b);
        FirstOf(a, b);
      }
    }

    lemma LastStep(r: seq<bool>, init: seq<bool>, b: bool)
      requires |r| == Length()
      ensures Steps(r, init + [b]) == Step(Steps(r, init), b)
    {
      StepsJoin(r, init, [b]);
      assert [b][1..] == [];
    }

    /** Feeding is additive, in the register and in the data. */
    lemma {:induction false} StepsAdd(r: seq<bool>, t: seq<bool>, a: seq<bool>, b: seq<bool>)
      requires |r| == |t| == Length() && |a| == |b|
      ensures Steps(XorBits(r, t), XorBits(a, b)) == XorBits(Steps(r, a), Steps(t, b))
      decreases |a|
    {
      if a != [] {
        StepAdds(r, t, a[0], b[0]);
        assert XorBits(a, b)[1..] == XorBits(a[1..], b[1..]);
        StepsAdd(Step(r, a[0]), Step(t, b[0]), a[1..], b[1..]);
      }
    }

    lemma StepAdds(r: seq<bool>, t: seq<bool>, a: bool, b: bool)
      requires |r| == |t| == Length()
      ensures Step(XorBits(r, t), a != b) == XorBits(Step(r, a), Step(t, b))
    {
      var p := Bits(poly, Length());
      ShiftsAdd(r, t);
      XorRegroups(r[1..] + [false], t[1..] + [false], p);
    }

    lemma FeedJoin(s: Word, a: seq<bool>, b: seq<bool>)
      ensures Feed(s, a + b) == Feed(Feed(s, a), b)
    {
      var r := Bits(s, Length());
      StepsJoin(r, a, b);
      BitsOfNumber(Steps(r, a));
      if a == [] {
        assert a + b == b;
      } else if b == [] {
        assert a + b == a;
      }
    }
  }

  /** The bits of a write, most significant first. */
  function Bits8(x: bv8): (s: seq<bool>)
    ensures |s| == 8
  {
    [x & 0x80 != 0, x & 0x40 != 0, x & 0x20 != 0, x & 0x10 != 0, x & 8 != 0, x & 4 != 0, x & 2 != 0, x & 1 != 0]
  }

  function Bits16(x: bv16): (s: seq<bool>)
    ensures |s| == 16
  {
    Bits8((x >> 8) as bv8) + Bits8((x & 0xFF) as bv8)
  }

  function Bits32(x: bv32): (s: seq<bool>)
    ensures |s| == 32
  {
    Bits16((x >> 16) as bv16) + Bits16((x & 0xFFFF) as bv16)
  }

  lemma {:induction false} NumberJoin(a: seq<bool>, b: seq<bool>)
    ensures Number(a + b) == Number(a) * Pow2(|b|) + Number(b)
  {
    if b == [] {
      assert a + [] == a && Pow2(0) == 1;
    } else {
      var init, last := b[..|b| - 1], b[|b| - 1];
      assert b == init + [last];
      NumberJoin(a, init);
      Associate(a, init, [last]);
      NumberPush(a + init, last);
      Doubled(Number(a), Pow2(|init|));
    }
  }

  lemma NumberPush(s: seq<bool>, b: bool)
    ensures Number(s + [b]) == 2 * Number(s) + Digit(b)
  {
    assert (s + [b])[..|s|] == s;
  }

  lemma Doubled(x: nat, q: nat)
    ensures 2 * (x * q) == x * (2 * q)
  {
  }

  lemma ByteNumber(x: bv8)
    ensures x as nat == Number(Bits8(x))
  {
    var b := Bits8(x);
    ByteSum(x);
    EightDigits(b);
  }

  lemma EightDigits(b: seq<bool>)
    requires |b| == 8
    ensures Number(b) == 128 * Digit(b[0]) + 64 * Digit(b[1]) + 32 * Digit(b[2]) + 16 * Digit(b[3])
      + 8 * Digit(b[4]) + 4 * Digit(b[5]) + 2 * Digit(b[6]) + Digit(b[7])
  {
    FourDigits(b[..4]);
    assert b[..7][..6] == b[..6] && b[..6][..5] == b[..5] && b[..5][..4] == b[..4];
    assert Number(b[..5]) == 2 * Number(b[..4]) + Digit(b[4]);
    assert Number(b[..6]) == 2 * Number(b[..5]) + Digit(b[5]);
    assert Number(b[..7]) == 2 * Number(b[..6]) + Digit(b[6]);
  }

  lemma FourDigits(b: seq<bool>)
    requires |b| == 4
    ensures Number(b) == 8 * Digit(b[0]) + 4 * Digit(b[1]) + 2 * Digit(b[2]) + Digit(b[3])
  {
    assert b[..3][..2] == b[..2] && b[..2][..1] == b[..1] && b[..1][..0] == [];
    assert Number(b[..1]) == Digit(b[0]);
    assert Number(b[..2]) == 2 * Number(b[..1]) + Digit(b[1]);
    assert Number(b[..3]) == 2 * Number(b[..2]) + Digit(b[2]);
  }

  lemma ByteSum(x: bv8)
    ensures x as nat == 128 * Digit(x & 0x80 != 0) + 64 * Digit(x & 0x40 != 0) + 32 * Digit(x & 0x20 != 0)
      + 16 * Digit(x & 0x10 != 0) + 8 * Digit(x & 8 != 0) + 4 * Digit(x & 4 != 0) + 2 * Digit(x & 2 != 0)
      + Digit(x & 1 != 0)
  {
  }

  // Input inversion

  function Reverse(s: seq<bool>): (r: seq<bool>)
    ensures |r| == |s| && forall i :: 0 <= i < |s| ==> r[i] == s[|s| - 1 - i]
  {
    seq(|s|, i requires 0 <= i < |s| => s[|s| - 1 - i])
  }

  /** Reverses each block of w bits; a write narrower than w is reversed as a whole. */
  function Inverted(s: seq<bool>, w: nat): (r: seq<bool>)
    requires w > 0
    ensures |r| == |s|
    decreases |s|
  {
    if |s| <= w then Reverse(s) else Reverse(s[..w]) + Inverted(s[w..], w)
  }

  /** Whole blocks are inverted independently of what follows them. */
  lemma {:induction false} InvertedJoin(a: seq<bool>, b: seq<bool>, w: nat, blocks: nat)
    requires w > 0 && |a| == w * blocks
    ensures Inverted(a + b, w) == Inverted(a, w) + Inverted(b, w)
    decreases blocks
  {
    if blocks == 0 {
      assert a + b == b;
    } else {
      assert |a| == w + w * (blocks - 1);
      assert (a + b)[..w] == a[..w] && (a + b)[w..] == a[w..] + b;
      InvertedJoin(a[w..], b, w, blocks - 1);
      if b == [] {
        assert a + b == a;
      }
      if |a| == w {
        assert a[..w] == a && a[w..] == [];
      }
    }
  }

  // What enters the unit

  function Enter8(inv: Inversion, x: bv8): seq<bool> { Inverted(Bits8(x), Width(inv)) }
  function Enter16(inv: Inversion, x: bv16): seq<bool> { Inverted(Bits16(x), Width(inv)) }
  function Enter32(inv: Inversion, x: bv32): seq<bool> { Inverted(Bits32(x), Width(inv)) }

  /** What enters in each mode: every bit, byte, half-word or word turned around in its place. */
  lemma EnteredBits(inv: Inversion, x: bv8, y: bv16, z: bv32)
    ensures Enter8(inv, x) == if inv == NoInversion then Bits8(x) else Reverse(Bits8(x))
    ensures
      Enter16(inv, y) == match inv
        case NoInversion => Bits16(y)
        case ByteWise => Reverse(Bits16(y)[..8]) + Reverse(Bits16(y)[8..])
        case _ => Reverse(Bits16(y))
    ensures
      Enter32(inv, z) == match inv
        case NoInversion => Bits32(z)
        case ByteWise =>
          Reverse(Bits32(z)[..8])
          + (Reverse(Bits32(z)[8..16]) + (Reverse(Bits32(z)[16..24]) + Reverse(Bits32(z)[24..])))
        case HalfwordWise => Reverse(Bits32(z)[..16]) + Reverse(Bits32(z)[16..])
        case WordWise => Reverse(Bits32(z))
  {
    match inv
    case NoInversion =>
      InvertedOne(Bits8(x));
      InvertedOne(Bits16(y));
      InvertedOne(Bits32(z));
    case ByteWise =>
      InvertedBytes(Bits16(y));
      InvertedBytes(Bits32(z));
    case HalfwordWise =>
      var s := Bits32(z);
      assert Inverted(s, 16) == Reverse(s[..16]) + Inverted(s[16..], 16);
    case WordWise =>
  }

  lemma InvertedBytes(s: seq<bool>)
    ensures |s| == 16 ==> Inverted(s, 8) == Reverse(s[..8]) + Reverse(s[8..])
    ensures |s| == 32 ==>
      Inverted(s, 8) == Reverse(s[..8]) + (Reverse(s[8..16]) + (Reverse(s[16..24]) + Reverse(s[24..])))
  {
    if |s| == 16 {
      assert Inverted(s[8..], 8) == Reverse(s[8..]);
    } else if |s| == 32 {
      assert s[8..][8..] == s[16..] && s[16..][8..] == s[24..] && s[8..][..8] == s[8..16] && s[16..][..8] == s[16..24];
      assert Inverted(s[24..], 8) == Reverse(s[24..]);
      assert Inverted(s[16..], 8) == Reverse(s[16..24]) + Inverted(s[24..], 8);
      assert Inverted(s[8..], 8) == Reverse(s[8..16]) + Inverted(s[16..], 8);
    }
  }

  lemma {:induction false} InvertedOne(s: seq<bool>)
    ensures Inverted(s, 1) == s
  {
    if |s| > 1 {
      InvertedOne(s[1..]);
      assert Reverse(s[..1]) == s[..1];
    }
  }

  function Pack2(a: bv8, b: bv8): bv16 { ((a as bv16) << 8) | (b as bv16) }

  function Pack4(a: bv8, b: bv8, c: bv8, d: bv8): bv32 {
    ((a as bv32) << 24) | ((b as bv32) << 16) | ((c as bv32) << 8) | (d as bv32)
  }

  function PackHalves(a: bv16, b: bv16): bv32 { ((a as bv32) << 16) | (b as bv32) }

  /** The simple form: one unit of the format at a time. */
  function ByBytes(inv: Inversion, data: seq<bv8>): seq<bool> {
    if data == [] then [] else Enter8(inv, data[0]) + ByBytes(inv, data[1..])
  }

  function ByHalves(inv: Inversion, data: seq<bv16>): seq<bool> {
    if data == [] then [] else Enter16(inv, data[0]) + ByHalves(inv, data[1..])
  }

  function ByWords(inv: Inversion, data: seq<bv32>): seq<bool> {
    if data == [] then [] else Enter32(inv, data[0]) + ByWords(inv, data[1..])
  }

  /** The fast form: four bytes in a word, then two in a half-word, then one. */
  function Packed8(inv: Inversion, data: seq<bv8>): seq<bool> {
    if |data| >= 4 then Enter32(inv, Pack4(data[0], data[1], data[2], data[3])) + Packed8(inv, data[4..])
    else if |data| >= 2 then Enter16(inv, Pack2(data[0], data[1])) + Packed8(inv, data[2..])
    else if |data| == 1 then Enter8(inv, data[0])
    else []
  }

  /** The fast form for half-words: two in a word. */
  function Packed16(inv: Inversion, data: seq<bv16>): seq<bool> {
    if |data| >= 2 then Enter32(inv, PackHalves(data[0], data[1])) + Packed16(inv, data[2..])
    else if |data| == 1 then Enter16(inv, data[0])
    else []
  }

  lemma UnpackHalf(a: bv8, b: bv8)
    ensures (Pack2(a, b) >> 8) as bv8 == a && (Pack2(a, b) & 0xFF) as bv8 == b
  {
  }

  lemma UnpackWord(a: bv8, b: bv8, c: bv8, d: bv8)
    ensures Pack4(a, b, c, d) == PackHalves(Pack2(a, b), Pack2(c, d))
  {
  }

  lemma UnpackHalves(a: bv16, b: bv16)
    ensures (PackHalves(a, b) >> 16) as bv16 == a && (PackHalves(a, b) & 0xFFFF) as bv16 == b
  {
  }

  /** The bits of a write are the binary digits of the number that its bytes make, the first byte on top. */
  lemma WriteNumbers(a: bv8, b: bv8, c: bv8, d: bv8)
    ensures Number(Bits8(a)) == a as nat
    ensures Number(Bits16(Pack2(a, b))) == 0x100 * (a as nat) + (b as nat)
    ensures
      Number(Bits32(Pack4(a, b, c, d)))
      == 0x100_0000 * (a as nat) + 0x1_0000 * (b as nat) + 0x100 * (c as nat) + (d as nat)
  {
    SplitHalf(a, b);
    SplitWord(a, b, c, d);
    ByteNumber(a);
    ByteNumber(b);
    ByteNumber(c);
    ByteNumber(d);
    JoinedNumbers(Bits8(a), Bits8(b), Bits8(c), Bits8(d));
  }

  lemma SplitHalf(a: bv8, b: bv8)
    ensures Bits16(Pack2(a, b)) == Bits8(a) + Bits8(b)
  {
    UnpackHalf(a, b);
  }

  lemma SplitWord(a: bv8, b: bv8, c: bv8, d: bv8)
    ensures Bits32(Pack4(a, b, c, d)) == (Bits8(a) + Bits8(b)) + (Bits8(c) + Bits8(d))
  {
    UnpackWord(a, b, c, d);
    UnpackHalves(Pack2(a, b), Pack2(c, d));
    SplitHalf(a, b);
    SplitHalf(c, d);
  }

  lemma JoinedNumbers(a: seq<bool>, b: seq<bool>, c: seq<bool>, d: seq<bool>)
    requires |a| == |b| == |c| == |d| == 8
    ensures Number(a + b) == 0x100 * Number(a) + Number(b)
    ensures
      Number((a + b) + (c + d)) == 0x100_0000 * Number(a) + 0x1_0000 * Number(b) + 0x100 * Number(c) + Number(d)
  {
    LengthPowers();
    NumberJoin(a, b);
    NumberJoin(c, d);
    NumberJoin(a + b, c + d);
  }

  /** Every write is made of bytes. */
  lemma WriteParts(y: bv16, z: bv32)
    ensures y == Pack2((y >> 8) as bv8, (y & 0xFF) as bv8)
    ensures z == Pack4((z >> 24) as bv8, ((z >> 16) & 0xFF) as bv8, ((z >> 8) & 0xFF) as bv8, (z & 0xFF) as bv8)
  {
  }

  /** Four pieces of eight bits are inverted each for itself by a mode of at most eight. */
  lemma FourApart(a: seq<bool>, b: seq<bool>, c: seq<bool>, d: seq<bool>, inv: Inversion)
    requires |a| == |b| == |c| == 8 && Width(inv) <= 8
    ensures var w := Width(inv);
            Inverted((a + b) + (c + d), w) == Inverted(a, w) + (Inverted(b, w) + (Inverted(c, w) + Inverted(d, w)))
  {
    var w := Width(inv);
    assert (a + b) + (c + d) == a + (b + (c + d));
    InvertedJoin(a, b + (c + d), w, 8 / w);
    InvertedJoin(b, c + d, w, 8 / w);
    InvertedJoin(c, d, w, 8 / w);
  }

  lemma WordOfBytes(inv: Inversion, a: bv8, b: bv8, c: bv8, d: bv8)
    requires Width(inv) <= 8
    ensures Enter32(inv, Pack4(a, b, c, d)) == Enter8(inv, a) + (Enter8(inv, b) + (Enter8(inv, c) + Enter8(inv, d)))
  {
    UnpackWord(a, b, c, d);
    UnpackHalves(Pack2(a, b), Pack2(c, d));
    UnpackHalf(a, b);
    UnpackHalf(c, d);
    FourApart(Bits8(a), Bits8(b), Bits8(c), Bits8(d), inv);
  }

  lemma HalfOfBytes(inv: Inversion, a: bv8, b: bv8)
    requires Width(inv) <= 8
    ensures Enter16(inv, Pack2(a, b)) == Enter8(inv, a) + Enter8(inv, b)
  {
    UnpackHalf(a, b);
    InvertedJoin(Bits8(a), Bits8(b), Width(inv), 8 / Width(inv));
  }

  lemma WordOfHalves(inv: Inversion, a: bv16, b: bv16)
    requires Width(inv) <= 16
    ensures Enter32(inv, PackHalves(a, b)) == Enter16(inv, a) + Enter16(inv, b)
  {
    UnpackHalves(a, b);
    InvertedJoin(Bits16(a), Bits16(b), Width(inv), 16 / Width(inv));
  }

  /** With no inversion, or byte-wise inversion, packing bytes does not show. */
  lemma {:induction false} PackedBytesAgree(inv: Inversion, data: seq<bv8>)
    requires Width(inv) <= 8
    ensures Packed8(inv, data) == ByBytes(inv, data)
  {
    if |data| >= 4 {
      WordOfBytes(inv, data[0], data[1], data[2], data[3]);
      PackedBytesAgree(inv, data[4..]);
      FirstBytes(inv, data, 4);
    } else if |data| >= 2 {
      HalfOfBytes(inv, data[0], data[1]);
      PackedBytesAgree(inv, data[2..]);
      FirstBytes(inv, data, 2);
    } else if |data| == 1 {
      assert Enter8(inv, data[0]) + [] == Enter8(inv, data[0]);
    }
  }

  /** The first bytes of the simple form, unfolded. */
  lemma FirstBytes(inv: Inversion, data: seq<bv8>, n: nat)
    requires (n == 2 || n == 4) && n <= |data|
    ensures ByBytes(inv, data) ==
      if n == 2 then (Enter8(inv, data[0]) + Enter8(inv, data[1])) + ByBytes(inv, data[2..])
      else
        (Enter8(inv, data[0]) + (Enter8(inv, data[1]) + (Enter8(inv, data[2]) + Enter8(inv, data[3]))))
        + ByBytes(inv, data[4..])
  {
    var d1, d2 := data[1..], data[2..];
    assert d1[1..] == d2 && ByBytes(inv, d1) == Enter8(inv, data[1]) + ByBytes(inv, d2);
    if n == 4 {
      var d3, d4 := data[3..], data[4..];
      assert d2[1..] == d3 && ByBytes(inv, d2) == Enter8(inv, data[2]) + ByBytes(inv, d3);
      assert d3[1..] == d4 && ByBytes(inv, d3) == Enter8(inv, data[3]) + ByBytes(inv, d4);
      Regroup(Enter8(inv, data[0]), Enter8(inv, data[1]), Enter8(inv, data[2]), Enter8(inv, data[3]), ByBytes(inv, d4));
    } else {
      Regroup(Enter8(inv, data[0]), Enter8(inv, data[1]), [], [], ByBytes(inv, d2));
    }
  }

  lemma Regroup(a: seq<bool>, b: seq<bool>, c: seq<bool>, d: seq<bool>, e: seq<bool>)
    ensures a + (b + (c + (d + e))) == (a + (b + (c + d))) + e
    ensures a + (b + e) == (a + b) + e
  {
  }

  /** With an inversion of at most 16 bits, packing half-words does not show. */
  lemma {:induction false} PackedHalvesAgree(inv: Inversion, data: seq<bv16>)
    requires Width(inv) <= 16
    ensures Packed16(inv, data) == ByHalves(inv, data)
  {
    if |data| >= 2 {
      WordOfHalves(inv, data[0], data[1]);
      PackedHalvesAgree(inv, data[2..]);
      var d1 := data[1..];
      assert d1[1..] == data[2..] && ByHalves(inv, d1) == Enter16(inv, data[1]) + ByHalves(inv, data[2..]);
      Regroup(Enter16(inv, data[0]), Enter16(inv, data[1]), [], [], ByHalves(inv, data[2..]));
    } else if |data| == 1 {
      assert Enter16(inv, data[0]) + [] == Enter16(inv, data[0]);
    }
  }
}
