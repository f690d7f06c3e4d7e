/** An inversion wider than the data format makes the packing visible. */
module CrcExact {
  import opened W = Words
  import opened Crc
  import opened CrcHandle

  ghost predicate PackingInvisible(inv: Inversion, format: Data) {
    forall u: Unit, s: Word, d: Data | d.SameFormat(format) :: u.Feed(s, Packed(inv, d)) == u.Feed(s, Unpacked(inv, d))
  }

  ghost predicate MayCutAnywhere(inv: Inversion, format: Data) {
    forall u: Unit, s: Word, a: Data, b: Data | a.SameFormat(format) && b.SameFormat(format) ::
      u.Feed(u.Feed(s, Packed(inv, a)), Packed(inv, b)) == u.Feed(s, Packed(inv, a.Append(b)))
  }

  // With polynomial 1 the register collects the first 32 bits

  const PLAIN := Unit(1, Size32)

  function Clear(n: nat): (s: seq<bool>)
    ensures |s| == n
  {
    seq(n, _ => false)
  }

  lemma {:induction false} SmallBits(n: nat, b: bool)
    ensures Bits(0, n) == Clear(n) && Bits(if b then 1 else 0, n + 1) == Clear(n) + [b]
  {
    if n > 0 {
      SmallBits(n - 1, false);
    }
  }

  lemma {:induction false} Collects(bits: seq<bool>)
    requires |bits| <= 32
    ensures PLAIN.Steps(Clear(32), bits) == Clear(32 - |bits|) + bits
  {
    if bits == [] {
      assert Clear(32) + [] == Clear(32);
    } else {
      var init, b := bits[..|bits| - 1], bits[|bits| - 1];
      Collects(init);
      assert init + [b] == bits;
      PLAIN.LastStep(Clear(32), init, b);
      CollectsOne(32 - |bits|, init, b);
    }
  }

  lemma CollectsOne(n: nat, init: seq<bool>, b: bool)
    requires n + 1 + |init| == 32
    ensures PLAIN.Step(Clear(n + 1) + init, b) == Clear(n) + (init + [b])
  {
    ClearFirst(n, init);
    CollectsStep(Clear(n + 1) + init, Clear(n) + init, b);
    Associate(Clear(n), init, [b]);
  }

  lemma CollectsStep(r: seq<bool>, rest: seq<bool>, b: bool)
    requires |r| == 32 && !r[0] && rest == r[1..]
    ensures PLAIN.Step(r, b) == rest + [b]
  {
    SmallBits(31, true);
    XorLowest(rest);
  }

  lemma ClearFirst(n: nat, s: seq<bool>)
    ensures (Clear(n + 1) + s)[1..] == Clear(n) + s && !(Clear(n + 1) + s)[0]
  {
  }

  lemma XorLowest(s: seq<bool>)
    ensures XorBits(s + [false], Clear(|s|) + [true]) == s + [true]
  {
  }

  /** So it tells apart any two lists of up to 32 bits. */
  lemma PlainTells(a: seq<bool>, b: seq<bool>)
    requires |a| == |b| <= 32 && a != b
    ensures PLAIN.Feed(0, a) != PLAIN.Feed(0, b)
  {
    SmallBits(32, false);
    Collects(a);
    Collects(b);
    BitsOfNumber(Clear(32 - |a|) + a);
    BitsOfNumber(Clear(32 - |b|) + b);
    assert (Clear(32 - |a|) + a)[32 - |a|..] == a && (Clear(32 - |b|) + b)[32 - |b|..] == b;
  }

  lemma LowBits()
    ensures Bits8(1)[7] && !Bits8(0)[7]
  {
  }

  /** Bytes 1 and 0, one at a time and packed, under an inversion wider than a byte. */
  lemma BytesTell(inv: Inversion)
    requires Width(inv) > 8
    ensures PLAIN.Feed(0, Enter16(inv, Pack2(1, 0))) != PLAIN.Feed(0, Enter8(inv, 1) + Enter8(inv, 0))
  {
    UnpackHalf(1, 0);
    LowBits();
    assert Enter16(inv, Pack2(1, 0)) == Reverse(Bits8(1) + Bits8(0));
    assert (Enter8(inv, 1) + Enter8(inv, 0))[0] == Bits8(1)[7];
    PlainTells(Enter16(inv, Pack2(1, 0)), Enter8(inv, 1) + Enter8(inv, 0));
  }

  /** Half-words 1 and 0 under word-wise inversion. */
  lemma HalvesTell()
    ensures PLAIN.Feed(0, Enter32(WordWise, PackHalves(1, 0)))
         != PLAIN.Feed(0, Enter16(WordWise, 1) + Enter16(WordWise, 0))
  {
    UnpackHalves(1, 0);
    LowBits();
    assert Bits16(1) == Bits8(0) + Bits8(1) && Bits16(0) == Bits8(0) + Bits8(0);
    assert Enter32(WordWise, PackHalves(1, 0)) == Reverse(Bits16(1) + Bits16(0));
    assert (Enter16(WordWise, 1) + Enter16(WordWise, 0))[0] == Bits16(1)[15];
    PlainTells(Enter32(WordWise, PackHalves(1, 0)), Enter16(WordWise, 1) + Enter16(WordWise, 0));
  }

  lemma UnfoldBytes(inv: Inversion, x: bv8, y: bv8)
    ensures Packed8(inv, [x, y]) == Enter16(inv, Pack2(x, y)) && Packed8(inv, [x]) == Enter8(inv, x)
    ensures ByBytes(inv, [x, y]) == Enter8(inv, x) + Enter8(inv, y)
  {
    assert [x, y][1..] == [y] && [y][1..] == [] && [x, y][2..] == [];
    assert Packed8(inv, []) == [] && ByBytes(inv, []) == [];
    assert ByBytes(inv, [y]) == Enter8(inv, y);
  }

  lemma UnfoldHalves(inv: Inversion, x: bv16, y: bv16)
    ensures Packed16(inv, [x, y]) == Enter32(inv, PackHalves(x, y)) && Packed16(inv, [x]) == Enter16(inv, x)
    ensures ByHalves(inv, [x, y]) == Enter16(inv, x) + Enter16(inv, y)
  {
    assert [x, y][1..] == [y] && [y][1..] == [] && [x, y][2..] == [];
    assert Packed16(inv, []) == [] && ByHalves(inv, []) == [];
    assert ByHalves(inv, [y]) == Enter16(inv, y);
  }

  /** Two bytes that tell packed from simple tell two calls from one as well. */
  lemma BytesShow(inv: Inversion, format: Data, u: Unit, s: Word, x: bv8, y: bv8)
    requires format.Bytes? && u.Feed(s, Enter16(inv, Pack2(x, y))) != u.Feed(s, Enter8(inv, x) + Enter8(inv, y))
    ensures !PackingInvisible(inv, format) && !MayCutAnywhere(inv, format)
  {
    var a, b, both := Bytes([x]), Bytes([y]), Bytes([x, y]);
    UnfoldBytes(inv, x, y);
    UnfoldBytes(inv, y, x);
    assert [x] + [y] == [x, y];
    assert both.SameFormat(format) && a.SameFormat(format) && b.SameFormat(format) && a.Append(b) == both;
    u.FeedJoin(s, Packed(inv, a), Packed(inv, b));
    assert u.Feed(s, Packed(inv, both)) != u.Feed(s, Unpacked(inv, both));
    assert u.Feed(u.Feed(s, Packed(inv, a)), Packed(inv, b)) != u.Feed(s, Packed(inv, a.Append(b)));
  }

  lemma HalvesShow(inv: Inversion, format: Data, u: Unit, s: Word, x: bv16, y: bv16)
    requires format.Halfwords?
      && u.Feed(s, Enter32(inv, PackHalves(x, y))) != u.Feed(s, Enter16(inv, x) + Enter16(inv, y))
    ensures !PackingInvisible(inv, format) && !MayCutAnywhere(inv, format)
  {
    var a, b, both := Halfwords([x]), Halfwords([y]), Halfwords([x, y]);
    UnfoldHalves(inv, x, y);
    UnfoldHalves(inv, y, x);
    assert [x] + [y] == [x, y];
    assert both.SameFormat(format) && a.SameFormat(format) && b.SameFormat(format) && a.Append(b) == both;
    u.FeedJoin(s, Packed(inv, a), Packed(inv, b));
    assert u.Feed(s, Packed(inv, both)) != u.Feed(s, Unpacked(inv, both));
    assert u.Feed(u.Feed(s, Packed(inv, a)), Packed(inv, b)) != u.Feed(s, Packed(inv, a.Append(b)));
  }

  /**
   The driver's packing computes the CRC of the data, and data may be passed in any number of
   calls, for every polynomial, start value and buffer, exactly when the input inversion is no
   wider than the data format.
   */
  lemma PackingExact(inv: Inversion, format: Data)
    ensures PackingInvisible(inv, format) <==> Matching(inv, format)
    ensures MayCutAnywhere(inv, format) <==> Matching(inv, format)
  {
    if Matching(inv, format) {
      forall u: Unit, s: Word, d: Data | d.SameFormat(format)
        ensures u.Feed(s, Packed(inv, d)) == u.Feed(s, Unpacked(inv, d))
      {
        PackedAgrees(inv, d);
      }
      forall u: Unit, s: Word, a: Data, b: Data | a.SameFormat(format) && b.SameFormat(format)
        ensures u.Feed(u.Feed(s, Packed(inv, a)), Packed(inv, b)) == u.Feed(s, Packed(inv, a.Append(b)))
      {
        PackedJoin(inv, a, b);
        u.FeedJoin(s, Packed(inv, a), Packed(inv, b));
      }
    } else if format.Bytes? {
      BytesTell(inv);
      BytesShow(inv, format, PLAIN, 0, 1, 0);
    } else {
      HalvesTell();
      HalvesShow(inv, format, PLAIN, 0, 1, 0);
    }
  }
}
