/** The CRC unit computes remainders of polynomials over the field of two elements. */
module CrcRemainder {
  import opened Crc
  import opened Words

  // Polynomials: the sets of their exponents

  type Poly = set<nat>

  function Add(a: Poly, b: Poly): (r: Poly)
    ensures forall i :: i in r <==> ((i in a) != (i in b))
  {
    (a - b) + (b - a)
  }

  /** The product with x^k. */
  function Shift(a: Poly, k: nat): (r: Poly)
    ensures forall i :: i in r <==> i >= k && i - k in a
  {
    set i | i in a :: i + k
  }

  /** The polynomial of a sequence of bits, the highest coefficient first. */
  function Value(bits: seq<bool>): (r: Poly)
    ensures forall i :: i in r <==> Coefficient(bits, i)
  {
    set i: nat | i < |bits| && Coefficient(bits, i)
  }

  predicate Coefficient(bits: seq<bool>, i: int) {
    0 <= i < |bits| && bits[|bits| - 1 - i]
  }

  /** The product of the polynomial of q with g: for every bit of q a multiple of g. */
  function Times(q: seq<bool>, g: Poly): Poly {
    if q == [] then {}
    else Add(Shift(Times(q[..|q| - 1], g), 1), if q[|q| - 1] then g else {})
  }

  /** r is what division of m by g leaves, g being of degree n. */
  ghost predicate Remainder(m: Poly, g: Poly, n: nat, r: Poly) {
    (forall i | i in r :: i < n) && exists q: seq<bool> :: m == Add(Times(q, g), r)
  }

  predicate Monic(g: Poly, n: nat) { n in g && forall i | i in g :: i <= n }

  /** Multiplying by one gives the polynomial itself. */
  lemma {:induction false} TimesOne(q: seq<bool>)
    ensures Times(q, {0}) == Value(q)
  {
    if q != [] {
      TimesOne(q[..|q| - 1]);
    }
  }

  lemma {:induction false} TimesAdds(p: seq<bool>, q: seq<bool>, g: Poly)
    requires |p| == |q|
    ensures Times(XorBits(p, q), g) == Add(Times(p, g), Times(q, g))
  {
    if p != [] {
      var n := |p| - 1;
      TimesAdds(p[..n], q[..n], g);
      assert XorBits(p, q)[..n] == XorBits(p[..n], q[..n]);
    }
  }

  /** A multiple of g that is not zero has an exponent of n or more. */
  lemma {:induction false} TimesTop(q: seq<bool>, g: Poly, n: nat)
    requires Monic(g, n)
    ensures Times(q, g) != {} ==> exists t :: t in Times(q, g) && t >= n && forall i | i in Times(q, g) :: i <= t
  {
    if q != [] {
      var init := q[..|q| - 1];
      TimesTop(init, g, n);
      if Times(init, g) != {} {
        var t :| t in Times(init, g) && t >= n && forall i | i in Times(init, g) :: i <= t;
        assert t + 1 in Times(q, g) && forall i | i in Times(q, g) :: i <= t + 1;
      } else if q[|q| - 1] {
        assert Times(q, g) == g;
      }
    }
  }

  /** Leading zeros do not matter. */
  lemma {:induction false} TimesPadded(k: nat, q: seq<bool>, g: Poly)
    ensures Times(seq(k, _ => false) + q, g) == Times(q, g)
    decreases k + |q|
  {
    var p := seq(k, _ => false) + q;
    if q != [] {
      var init := q[..|q| - 1];
      TimesPadded(k, init, g);
      assert p[..|p| - 1] == seq(k, _ => false) + init;
    } else if k > 0 {
      TimesPadded(k - 1, [], g);
      assert p[..|p| - 1] == seq(k - 1, _ => false) + [];
    }
  }

  /** There is only one remainder. */
  lemma RemainderUnique(m: Poly, g: Poly, n: nat, r: Poly, s: Poly)
    requires Monic(g, n) && Remainder(m, g, n, r) && Remainder(m, g, n, s)
    ensures r == s
  {
    var p: seq<bool> :| m == Add(Times(p, g), r);
    var q: seq<bool> :| m == Add(Times(q, g), s);
    TimesPadded(|q|, p, g);
    TimesPadded(|p|, q, g);
    var d := XorBits(seq(|q|, _ => false) + p, seq(|p|, _ => false) + q);
    TimesAdds(seq(|q|, _ => false) + p, seq(|p|, _ => false) + q, g);
    assert Times(d, g) == Add(r, s);
    TimesTop(d, g, n);
  }

  // Numbers as polynomials

  predicate Odd(v: nat, i: nat) { v / Pow2(i) % 2 == 1 }

  /** The polynomial whose coefficients are the binary digits of a word. */
  function Polynomial(v: Word): (r: Poly)
    ensures forall i :: i in r <==> 0 <= i < 32 && Odd(v, i)
  {
    set i: nat | i < 32 && Odd(v, i)
  }

  /** A programmed polynomial: its lowest n coefficients and the leading one, which is not programmed. */
  function Generator(poly: Word, n: nat): (g: Poly)
    ensures Monic(g, n) && forall i | 0 <= i < n :: i in g <==> Odd(poly, i)
  {
    {n} + set i: nat | i < n && Odd(poly, i)
  }

  lemma {:induction false} DigitOfBits(v: nat, n: nat, i: nat)
    ensures Coefficient(Bits(v, n), i) <==> i < n && Odd(v, i)
    decreases n
  {
    if 0 < n && 0 < i {
      DigitOfBits(v / 2, n - 1, i - 1);
      assert Pow2(i) == 2 * Pow2(i - 1);
      HalvedTwice(v, Pow2(i - 1));
    } else if n > 0 {
      assert Pow2(0) == 1;
    }
  }

  lemma HalvedTwice(v: nat, q: nat)
    requires q > 0
    ensures v / (2 * q) == v / 2 / q
  {
    var h := v / 2;
    var d, r := h / q, h % q;
    assert h == q * d + r && v == 2 * h + v % 2;
    assert v == (2 * q) * d + (2 * r + v % 2);
    Quotient(v, 2 * q, d, 2 * r + v % 2);
  }

  lemma DigitsOf(v: nat, n: nat)
    ensures forall i :: i in Value(Bits(v, n)) <==> 0 <= i < n && Odd(v, i)
  {
    forall i: nat ensures i in Value(Bits(v, n)) <==> i < n && Odd(v, i) {
      DigitOfBits(v, n, i);
    }
  }

  /** Digits beyond the size of a number are zero. */
  lemma DigitsBelow(v: Word, n: nat)
    requires v < Pow2(n) && n <= 32
    ensures Polynomial(v) == Value(Bits(v, n))
  {
    DigitsOf(v, n);
    forall i: nat | n <= i < 32 ensures !Odd(v, i) {
      PowersOrdered(n, i);
      Quotient(v, Pow2(i), 0, v);
    }
  }

  // One bit is one step of a division

  function One(b: bool): Poly { if b then {0} else {} }

  lemma StepDivides(u: Unit, r: seq<bool>, b: bool)
    requires |r| == u.Length()
    ensures
      var n := u.Length();
      Add(Shift(Value(r), 1), Shift(One(b), n))
      == Add(if r[0] != b then Generator(u.poly, n) else {}, Value(u.Step(r, b)))
  {
    var n := u.Length();
    var left := Add(Shift(Value(r), 1), Shift(One(b), n));
    var right := Add(if r[0] != b then Generator(u.poly, n) else {}, Value(u.Step(r, b)));
    forall i: nat ensures i in left <==> i in right {
      DigitOfBits(u.poly, n, i);
      StepAt(u, r, b, i);
    }
  }

  /** A coefficient of the register after a step. */
  lemma StepAt(u: Unit, r: seq<bool>, b: bool, i: nat)
    requires |r| == u.Length()
    ensures
      Coefficient(u.Step(r, b), i) == (i < u.Length()
        && ((i > 0 && Coefficient(r, i - 1)) != (r[0] != b && Coefficient(Bits(u.poly, u.Length()), i))))
  {
  }

  /** The message with the start value above it, n places up. */
  function Dividend(r: seq<bool>, bits: seq<bool>): Poly {
    Add(Shift(Value(r), |bits|), Shift(Value(bits), |r|))
  }

  lemma {:induction false} StepsDivide(u: Unit, r: seq<bool>, bits: seq<bool>)
    requires |r| == u.Length()
    ensures
      var n := u.Length();
      Remainder(Dividend(r, bits), Generator(u.poly, n), n, Value(u.Steps(r, bits)))
    decreases |bits|
  {
    var n := u.Length();
    var g := Generator(u.poly, n);
    if bits == [] {
      assert Dividend(r, bits) == Add(Times([], g), Value(r));
    } else {
      var init, b := bits[..|bits| - 1], bits[|bits| - 1];
      StepsDivide(u, r, init);
      var q: seq<bool> :| Dividend(r, init) == Add(Times(q, g), Value(u.Steps(r, init)));
      assert init + [b] == bits;
      u.LastStep(r, init, b);
      OneMore(r, init, b);
      DivideOneMore(u, Dividend(r, init), u.Steps(r, init), b, q);
    }
  }

  lemma DivideOneMore(u: Unit, dividend: Poly, t: seq<bool>, b: bool, q: seq<bool>)
    requires |t| == u.Length() && dividend == Add(Times(q, Generator(u.poly, u.Length())), Value(t))
    ensures exists p: seq<bool> ::
      Add(Shift(dividend, 1), Shift(One(b), u.Length()))
      == Add(Times(p, Generator(u.poly, u.Length())), Value(u.Step(t, b)))
  {
    var c, g := t[0] != b, Generator(u.poly, u.Length());
    StepDivides(u, t, b);
    TimesMore(q, c, g);
    Divided(dividend, Times(q, g), Value(t), Shift(One(b), u.Length()), if c then g else {}, Value(u.Step(t, b)));
  }

  lemma TimesMore(q: seq<bool>, c: bool, g: Poly)
    ensures Times(q + [c], g) == Add(Shift(Times(q, g), 1), if c then g else {})
  {
    assert (q + [c])[..|q|] == q;
  }

  lemma OneMore(r: seq<bool>, init: seq<bool>, b: bool)
    ensures Dividend(r, init + [b]) == Add(Shift(Dividend(r, init), 1), Shift(One(b), |r|))
  {
    forall i: nat ensures Coefficient(init + [b], i) == if i == 0 then b else Coefficient(init, i - 1) {
    }
  }

  lemma Divided(dividend: Poly, multiple: Poly, t: Poly, one: Poly, g: Poly, next: Poly)
    requires dividend == Add(multiple, t) && Add(Shift(t, 1), one) == Add(g, next)
    ensures Add(Shift(dividend, 1), one) == Add(Add(Shift(multiple, 1), g), next)
  {
    var left, right := Add(Shift(dividend, 1), one), Add(Add(Shift(multiple, 1), g), next);
    forall i: nat ensures i in left <==> i in right {
      assert i in Add(Shift(t, 1), one) <==> i in Add(g, next);
    }
  }

  // The CRC

  /**
   v is the CRC of some bits: the remainder, by the generator of degree n, of the bits n places
   up with the lowest n digits of the start value above them.
   */
  ghost predicate IsCrc(poly: Word, n: nat, start: Word, bits: seq<bool>, v: Word) {
    Remainder(Dividend(Bits(start, n), bits), Generator(poly, n), n, Polynomial(v))
  }

  /** What the unit holds after bits have entered it is their CRC, for every size. */
  lemma FeedIsCrc(u: Unit, start: Word, bits: seq<bool>)
    requires bits != []
    ensures
      var n := match u.size case Size7 => 7 case Size8 => 8 case Size16 => 16 case Size32 => 32;
      u.Feed(start, bits) < Pow2(n) && IsCrc(u.poly, n, start, bits, u.Feed(start, bits))
  {
    var n := u.Length();
    var r := Bits(start, n);
    StepsDivide(u, r, bits);
    BitsOfNumber(u.Steps(r, bits));
    DigitsBelow(u.Feed(start, bits), n);
  }

  /** Dividing shows it: no other number is the CRC. */
  lemma CrcUnique(poly: Word, n: nat, start: Word, bits: seq<bool>, v: Word, w: Word)
    requires IsCrc(poly, n, start, bits, v) && IsCrc(poly, n, start, bits, w)
    ensures v == w
  {
    RemainderUnique(Dividend(Bits(start, n), bits), Generator(poly, n), n, Polynomial(v), Polynomial(w));
    SamePolynomial(v, w);
  }

  lemma SamePolynomial(v: Word, w: Word)
    requires Polynomial(v) == Polynomial(w)
    ensures v == w
  {
    LengthPowers();
    DigitsBelow(v, 32);
    DigitsBelow(w, 32);
    SameValue(Bits(v, 32), Bits(w, 32));
    NumberOfBits(v, 32);
    NumberOfBits(w, 32);
  }

  lemma SameValue(a: seq<bool>, b: seq<bool>)
    requires |a| == |b| && Value(a) == Value(b)
    ensures a == b
  {
    forall k | 0 <= k < |a| ensures a[k] == b[k] {
      assert |a| - 1 - k in Value(a) <==> |a| - 1 - k in Value(b);
    }
  }

  /** From 0, the dividend is the message alone. */
  lemma FromZero(n: nat, bits: seq<bool>)
    ensures Dividend(Bits(0, n), bits) == Shift(Value(bits), n)
  {
    DigitsOf(0, n);
  }
}
