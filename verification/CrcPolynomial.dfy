/** HAL_CRCEx_Polynomial_Set: the check of a polynomial against its length. */
module CrcPolynomial {
  import opened Words

  datatype Status = Ok | Error

  const POLYLENGTH_32B: bv32 := 0
  const POLYLENGTH_16B: bv32 := 0x8
  const POLYLENGTH_8B: bv32 := 0x10
  const POLYLENGTH_7B: bv32 := 0x18
  const CR_POLYSIZE: bv32 := 0x18

  predicate Bit(p: Word, k: nat) {
    p / Pow2(k) % 2 == 1
  }

  /** The bits a length code stands for; none for codes that are no length. */
  function Length(code: bv32): (n: nat)
    ensures n == 0 || n == 7 || n == 8 || n == 16 || n == 32
  {
    if code == POLYLENGTH_7B then 7 else if code == POLYLENGTH_8B then 8
    else if code == POLYLENGTH_16B then 16 else if code == POLYLENGTH_32B then 32 else 0
  }

  /** What the code accepts: it never looks at bit 31. */
  predicate Accepted(pol: Word, code: bv32) {
    pol % 2 == 1 && (Length(code) == 32 || (Length(code) != 0 && pol % 0x8000_0000 < Pow2(Length(code))))
  }

  /** What its comments say: an odd polynomial whose degree is no larger than the length. */
  predicate Documented(pol: Word, code: bv32) {
    pol % 2 == 1 && (Length(code) == 32 || (Length(code) != 0 && pol < Pow2(Length(code))))
  }

  class Registers {
    var pol: Word
    var cr: bv32

    constructor ()
      ensures pol == 0x04C1_1DB7 && cr == 0
    {
      pol, cr := 0x04C1_1DB7, 0;
    }

    /** POL and CR are written exactly when the polynomial is accepted. */
    method PolynomialSet(p: Word, polyLength: bv32) returns (status: Status)
      modifies this
      ensures status == Ok <==> Accepted(p, polyLength)
      ensures status == Ok ==> pol == p && cr == (old(cr) & 0xFFFF_FFE7) | polyLength
      ensures status == Error ==> pol == old(pol) && cr == old(cr)
      ensures status == Ok <==>
        p % 2 == 1 && (polyLength == 0 || (polyLength == 0x8 && p % 0x8000_0000 < 0x1_0000)
                       || (polyLength == 0x10 && p % 0x8000_0000 < 0x100)
                       || (polyLength == 0x18 && p % 0x8000_0000 < 0x80))
    {
      status := Check(p, polyLength);
      if status == Ok {
        pol := p;
        SetSize(polyLength);
      }
    }

    /** MODIFY_REG on the size field. */
    method SetSize(polyLength: bv32)
      requires Length(polyLength) != 0
      modifies `cr
      ensures cr == (old(cr) & 0xFFFF_FFE7) | polyLength
    {
      SizeField();
      cr := (cr & !CR_POLYSIZE) | polyLength;
    }
  }

  lemma SizeField()
    ensures !CR_POLYSIZE == 0xFFFF_FFE7
  {
  }

  /** What is accepted, code by code. */
  lemma AcceptedNumbers(pol: Word, code: bv32)
    ensures Accepted(pol, code) <==>
      pol % 2 == 1 && (code == 0 || (code == 0x8 && pol % 0x8000_0000 < 0x1_0000)
                       || (code == 0x10 && pol % 0x8000_0000 < 0x100) || (code == 0x18 && pol % 0x8000_0000 < 0x80))
    ensures Documented(pol, code) <==>
      pol % 2 == 1 && (code == 0 || (code == 0x8 && pol < 0x1_0000) || (code == 0x10 && pol < 0x100)
                       || (code == 0x18 && pol < 0x80))
  {
    LengthPowers();
  }

  method Check(p: Word, polyLength: bv32) returns (status: Status)
    ensures status == Ok <==> Accepted(p, polyLength)
    ensures status == Ok <==>
      p % 2 == 1 && (polyLength == 0 || (polyLength == 0x8 && p % 0x8000_0000 < 0x1_0000)
                     || (polyLength == 0x10 && p % 0x8000_0000 < 0x100)
                     || (polyLength == 0x18 && p % 0x8000_0000 < 0x80))
  {
    AcceptedNumbers(p, polyLength);
    status := Ok;
    if p % 2 == 0 {
      status := Error;
    } else {
      var msb := HighestBit(p);
      Compare(p, msb, Length(polyLength));
      if polyLength == POLYLENGTH_7B {
        if msb >= 7 {
          status := Error;
        }
      } else if polyLength == POLYLENGTH_8B {
        if msb >= 8 {
          status := Error;
        }
      } else if polyLength == POLYLENGTH_16B {
        if msb >= 16 {
          status := Error;
        }
      } else if polyLength != POLYLENGTH_32B {
        status := Error;
      }
    }
  }

  /** The highest bit below 31 is below n exactly when the bits below 31 make a number below 2^n. */
  lemma Compare(p: Word, msb: nat, n: nat)
    requires Pow2(msb) <= p % 0x8000_0000 < Pow2(msb + 1)
    ensures msb < n <==> p % 0x8000_0000 < Pow2(n)
  {
    PowersOrdered(n, msb);
  }

  /**
   The decrementing search: for an odd polynomial it stops, without wrapping, at the highest set
   bit below bit 31.
   */
  method HighestBit(p: Word) returns (msb: nat)
    requires p % 2 == 1
    ensures msb < 31 && Bit(p, msb) && forall k :: msb < k < 31 ==> !Bit(p, k)
    ensures Pow2(msb) <= p % 0x8000_0000 < Pow2(msb + 1)
  {
    msb := 31;
    LengthPowers();
    var more := true;
    while more
      invariant more ==> 1 <= msb <= 31
      invariant more ==> (forall k :: msb <= k < 31 ==> !Bit(p, k)) && p % 0x8000_0000 < Pow2(msb)
      invariant !more ==> msb < 31 && Bit(p, msb) && p % 0x8000_0000 < Pow2(msb + 1)
      invariant !more ==> forall k :: msb < k < 31 ==> !Bit(p, k)
      decreases if more then msb + 1 else 0
    {
      var was := msb;
      msb := msb - 1;  // msb was at least 1: bit 0 of an odd polynomial stops the search before it wraps
      more := was > 0 && !Bit(p, msb);
      BitBelow31(p, msb);
      BitDecides(p % 0x8000_0000, msb);
      if msb == 0 {
        assert Pow2(0) == 1;
      }
    }
    BitBelow31(p, msb);
    BitDecides(p % 0x8000_0000, msb);
  }

  /** The bits below 31 do not depend on bit 31. */
  lemma BitBelow31(p: Word, k: nat)
    requires k < 31
    ensures Bit(p, k) <==> Bit(p % 0x8000_0000, k)
  {
    LengthPowers();
    PowerSum(k, 31 - k);
    PowerSum(1, 30 - k);
    HighPart(p, Pow2(k), Pow2(30 - k));
  }

  lemma HighPart(p: nat, q: nat, r: nat)
    requires q > 0 && q * (2 * r) == 0x8000_0000 && p < 0x1_0000_0000
    ensures p / q % 2 == p % 0x8000_0000 / q % 2
  {
    if p >= 0x8000_0000 {
      var low := p - 0x8000_0000;
      assert p % 0x8000_0000 == low;
      DivideSum(low, q, 2 * r);
      AddEven(low / q, r);
    }
  }

  lemma AddEven(n: nat, r: nat)
    ensures (n + 2 * r) % 2 == n % 2
  {
  }

  lemma DivideSum(low: nat, q: nat, m: nat)
    requires q > 0
    ensures (low + q * m) / q == low / q + m
  {
    var d, r := low / q, low % q;
    assert low == q * d + r;
    assert low + q * m == q * (d + m) + r by {
      assert q * (d + m) == q * d + q * m;
    }
    Quotient(low + q * m, q, d + m, r);
  }

  /** Below 2^(k+1), bit k says on which side of 2^k a number lies. */
  lemma BitDecides(p: Word, k: nat)
    ensures p < Pow2(k + 1) ==> (Bit(p, k) <==> p >= Pow2(k))
  {
    var q := Pow2(k);
    assert Pow2(k + 1) == 2 * q;
    if p < q {
      Quotient(p, q, 0, p);
    } else if p < 2 * q {
      Quotient(p, q, 1, p - q);
    }
  }

  /**
   The check is the documented one exactly for 32-bit lengths, polynomials without bit 31, and
   those rejected anyway.
   */
  lemma DocumentedExact(pol: Word, code: bv32)
    ensures (Accepted(pol, code) <==> Documented(pol, code))
       <==> (Length(code) == 32 || Length(code) == 0 || pol < 0x8000_0000 || pol % 2 == 0
             || pol % 0x8000_0000 >= Pow2(Length(code)))
  {
    LengthPowers();
  }

  /** Bit 31 goes unnoticed: X^31 + 1 passes for a polynomial of seven bits. */
  lemma HighBitPasses()
    ensures Accepted(0x8000_0001, POLYLENGTH_7B) && !Documented(0x8000_0001, POLYLENGTH_7B)
  {
    LengthPowers();
  }
}
