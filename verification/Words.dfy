/** 32-bit words, as the peripherals exchange them, and their byte view. */
module Words {
  type Word = w: int | 0 <= w < 0x1_0000_0000
  type Half = h: int | 0 <= h < 0x1_0000
  type Byte = b: int | 0 <= b < 0x100

  function Min(a: int, b: int): int { if a <= b then a else b }

  /** A 16-bit counter: its value after n increments from 0, and one more increment. */
  function Wrap16(n: nat): (w: nat)
    ensures w < 0x1_0000 && w <= n && (n < 0x1_0000 ==> w == n)
  {
    if n < 0x1_0000 then n else Wrap16(n - 0x1_0000)
  }

  function Inc16(n: nat): nat {
    if n + 1 == 0x1_0000 then 0 else n + 1
  }

  lemma {:induction false} Wrap16Counts(n: nat)
    ensures Wrap16(n + 1) == Inc16(Wrap16(n)) && Wrap16(n) == n % 0x1_0000
  {
    if n >= 0x1_0000 {
      Wrap16Counts(n - 0x1_0000);
    }
  }

  /** The groups of four needed to hold n things. */
  function Quads(n: nat): nat { (n + 3) / 4 }

  function Zeros(n: nat): (s: seq<Word>)
    ensures |s| == n && forall i :: 0 <= i < n ==> s[i] == 0
  {
    seq(n, _ => 0)
  }

  lemma Join<T>(s: seq<T>, a: nat, b: nat, c: nat)
    requires a <= b <= c <= |s|
    ensures s[a..b] + s[b..c] == s[a..c]
    ensures s[a..c][b - a..] == s[b..c]
  {
  }

  lemma TakeAll<T>(s: seq<T>)
    ensures s[..|s|] == s
  {
  }

  lemma Associate<T>(a: seq<T>, b: seq<T>, c: seq<T>)
    ensures a + b + c == a + (b + c)
  {
  }

  lemma TakeWithin<T>(s: seq<T>, a: nat, b: nat, n: nat)
    requires a <= b <= |s| && n <= b - a
    ensures s[a..b][..n] == s[a..a + n]
  {
  }

  lemma TakeBehind<T>(all: seq<T>, a: seq<T>, b: seq<T>, n: nat)
    requires all == a + b && n <= |b|
    ensures all[..|a| + n] == a + b[..n]
  {
  }

  /** The first part of what is sent, the next part, and all of it. */
  lemma Extend<T>(before: seq<T>, s: seq<T>, a: nat, b: nat)
    requires a <= b <= |s|
    ensures before + s[..a] + s[a..b] == before + s[..b]
    ensures s[..a] + s[a..b] == s[..b]
  {
  }

  /** The buffer is buffer0 except that data was written at base. */
  ghost predicate Written<T>(buffer: array<T>, buffer0: seq<T>, base: nat, data: seq<T>)
    reads buffer
  {
    && buffer.Length == |buffer0|
    && base + |data| <= |buffer0|
    && (forall j | 0 <= j < buffer.Length ::
          buffer[j] == if base <= j < base + |data| then data[j - base] else buffer0[j])
  }

  /** Two writes next to each other are one. */
  lemma WrittenTwice<T>(buffer: array<T>, buffer1: seq<T>, buffer0: seq<T>, base: nat, a: seq<T>, b: seq<T>)
    requires |buffer1| == |buffer0| && base + |a| <= |buffer0|
    requires forall j | 0 <= j < |buffer1| :: buffer1[j] == if base <= j < base + |a| then a[j - base] else buffer0[j]
    requires Written(buffer, buffer1, base + |a|, b)
    ensures Written(buffer, buffer0, base, a + b)
  {
  }

  function Pow2(k: nat): (p: nat)
    ensures p > 0
  {
    if k == 0 then 1 else 2 * Pow2(k - 1)
  }

  lemma LengthPowers()
    ensures Pow2(7) == 0x80 && Pow2(8) == 0x100 && Pow2(16) == 0x1_0000 && Pow2(31) == 0x8000_0000
    ensures Pow2(32) == 0x1_0000_0000
  {
    assert Pow2(4) == 16;
    PowerSum(4, 3);
    PowerSum(4, 4);
    PowerSum(8, 8);
    PowerSum(16, 8);
    PowerSum(24, 7);
  }

  lemma {:induction false} PowerSum(a: nat, b: nat)
    ensures Pow2(a + b) == Pow2(a) * Pow2(b)
  {
    if b > 0 {
      PowerSum(a, b - 1);
      assert Pow2(a + b) == 2 * Pow2(a + (b - 1));
    }
  }

  lemma {:induction false} PowersOrdered(n: nat, m: nat)
    ensures if m < n then Pow2(m + 1) <= Pow2(n) else Pow2(n) <= Pow2(m)
    decreases n + m
  {
    if m + 1 < n {
      PowersOrdered(n - 1, m);
    } else if n < m {
      PowersOrdered(n, m - 1);
    }
  }

  lemma Quotient(n: nat, q: nat, d: nat, r: nat)
    requires n == q * d + r && r < q
    ensures n / q == d
  {
    var e := n / q;
    Monotonic(q, e + 1, d);
    Monotonic(q, d + 1, e);
  }

  lemma Monotonic(q: nat, a: int, b: int)
    ensures a <= b ==> q * a <= q * b
  {
  }

  function Total(parts: seq<nat>): nat {
    if parts == [] then 0 else Total(parts[..|parts| - 1]) + parts[|parts| - 1]
  }

  lemma {:induction false} TotalPrefix(parts: seq<nat>, j: nat)
    requires j < |parts|
    ensures Total(parts[..j + 1]) == Total(parts[..j]) + parts[j]
    ensures Total(parts[..j + 1]) <= Total(parts)
    decreases |parts| - j
  {
    assert parts[..j + 1][..j] == parts[..j];
    if j + 1 < |parts| {
      TotalPrefix(parts, j + 1);
    } else {
      assert parts[..j + 1] == parts;
    }
  }

  /** The memory image of a word: least significant byte first. */
  function WordBytes(w: Word): (s: seq<Byte>)
    ensures |s| == 4
  {
    [w % 0x100, w / 0x100 % 0x100, w / 0x1_0000 % 0x100, w / 0x100_0000]
  }

  function Bytes(ws: seq<Word>): (s: seq<Byte>)
    ensures |s| == 4 * |ws|
  {
    if ws == [] then [] else Bytes(ws[..|ws| - 1]) + WordBytes(ws[|ws| - 1])
  }

  lemma {:induction false} BytesAt(ws: seq<Word>, i: nat)
    requires i < |ws|
    ensures Bytes(ws)[4 * i..4 * i + 4] == WordBytes(ws[i])
  {
    var init := ws[..|ws| - 1];
    if i < |ws| - 1 {
      BytesAt(init, i);
      assert Bytes(ws)[4 * i..4 * i + 4] == Bytes(init)[4 * i..4 * i + 4];
    }
  }
}
