/** What the GCM header phase must send, and when the three modes send it. */
module CrypHeader {
  import opened Words
  import opened CrypHandle

  /** Whole words of the header, its last bytes masked, and zeros up to a block boundary. */
  function PadHeader(header: seq<Word>, bytes: nat): (s: seq<Word>)
    requires Quads(bytes) <= |header|
    ensures |s| == 4 * ((bytes + 15) / 16)
  {
    var words := header[..bytes / 4] + if bytes % 4 == 0 then [] else [LowBytes(header[bytes / 4], bytes % 4)];
    words + Zeros(4 * ((bytes + 15) / 16) - |words|)
  }

  /** The mask applied to the last word: 0xFF, 0xFFFF or 0xFFFFFF. */
  function LowBytes(w: Word, n: nat): Word
    requires 1 <= n <= 3
  {
    if n == 1 then w % 0x100 else if n == 2 then w % 0x1_0000 else w % 0x100_0000
  }

  /** The header as a 16-bit word counter addresses it. */
  function ThroughCounter(header: seq<Word>, n: nat): (s: seq<Word>)
    requires Min(n, 0x1_0000) <= |header|
    ensures |s| == n && forall i | 0 <= i < n :: s[i] == header[Wrap16(i)]
  {
    seq(n, i requires 0 <= i < n => header[Wrap16(i)])
  }

  function HeaderStream(header: seq<Word>, bytes: nat): (s: seq<Word>)
    requires Min(Quads(bytes), 0x1_0000) <= |header|
    ensures |s| == 4 * ((bytes + 15) / 16)
  {
    PadHeader(ThroughCounter(header, Quads(bytes)), bytes)
  }

  /** The polling mode's size in bytes, computed in 32 bits. */
  function SizeInBytes(unit: SizeUnit, size: nat): nat {
    if unit == InWords then size * 4 % 0x1_0000_0000 else size
  }

  /** Header bytes are counted as they are; of words, the byte size is kept in 32 bits. */
  lemma HeaderSizeNumbers(unit: SizeUnit, size: nat)
    requires size < 0x1_0000_0000
    ensures unit == InBytes ==> SizeInBytes(unit, size) == size
    ensures unit == InWords ==>
      && SizeInBytes(unit, size) < 0x1_0000_0000
      && 4 * size - SizeInBytes(unit, size) in {0, 0x1_0000_0000, 0x2_0000_0000, 0x3_0000_0000}
  {
  }

  /** The stream is the header, byte for byte, then zero bytes up to the next multiple of 16. */
  lemma {:induction false} PaddedByteForByte(header: seq<Word>, bytes: nat, k: nat)
    requires Quads(bytes) <= |header| && k < |Bytes(PadHeader(header, bytes))|
    ensures |Bytes(PadHeader(header, bytes))| == 16 * ((bytes + 15) / 16)
    ensures Bytes(PadHeader(header, bytes))[k] == if k < bytes then Bytes(header)[k] else 0
  {
    var s := PadHeader(header, bytes);
    BytesAt(s, k / 4);
    assert Bytes(s)[k] == Bytes(s)[4 * (k / 4)..4 * (k / 4) + 4][k % 4];
    if k / 4 < |header| {
      BytesAt(header, k / 4);
      assert Bytes(header)[k] == Bytes(header)[4 * (k / 4)..4 * (k / 4) + 4][k % 4];
    }
    if k / 4 == bytes / 4 && bytes % 4 != 0 {
      LowBytesAt(header[k / 4], bytes % 4, k % 4);
    }
  }

  lemma Digits(w: Word, b0: Byte, b1: Byte, b2: Byte, b3: Byte)
    requires w == b0 + 0x100 * b1 + 0x1_0000 * b2 + 0x100_0000 * b3
    ensures w % 0x100 == b0 && w % 0x1_0000 == b0 + 0x100 * b1
    ensures w % 0x100_0000 == b0 + 0x100 * b1 + 0x1_0000 * b2
    ensures WordBytes(w) == [b0, b1, b2, b3]
  {
    assert w / 0x100 == b1 + 0x100 * b2 + 0x1_0000 * b3;
    assert w / 0x1_0000 == b2 + 0x100 * b3;
    assert w / 0x100_0000 == b3;
  }

  lemma LowBytesAt(w: Word, n: nat, i: nat)
    requires 1 <= n <= 3 && i < 4
    ensures WordBytes(LowBytes(w, n))[i] == if i < n then WordBytes(w)[i] else 0
  {
    var b0: Byte, b1: Byte, b2: Byte, b3: Byte :=
      w % 0x100, w / 0x100 % 0x100, w / 0x1_0000 % 0x100, w / 0x100_0000;
    Digits(w, b0, b1, b2, b3);
    Digits(b0, b0, 0, 0, 0);
    Digits(b0 + 0x100 * b1, b0, b1, 0, 0);
    Digits(b0 + 0x100 * b1 + 0x1_0000 * b2, b0, b1, b2, 0);
  }

  /** What the k-th word of a stream is, for each of its four parts. */
  lemma StreamAt(header: seq<Word>, bytes: nat, k: nat)
    requires Min(Quads(bytes), 0x1_0000) <= |header| && k < |HeaderStream(header, bytes)|
    ensures var s := HeaderStream(header, bytes);
            && (k < bytes / 4 ==> s[k] == header[Wrap16(k)])
            && (k == bytes / 4 && bytes % 4 != 0 ==> s[k] == LowBytes(header[Wrap16(k)], bytes % 4))
            && (k >= Quads(bytes) ==> s[k] == 0)
  {
  }

  /** The 16-bit counter sends the right header exactly when the header has at most 65536 words. */
  lemma CounterExact(bytes: nat)
    ensures (forall header: seq<Word> | |header| == Quads(bytes) ::
      HeaderStream(header, bytes) == PadHeader(header, bytes))
       <==> Quads(bytes) <= 0x1_0000
  {
    var n := Quads(bytes);
    if n <= 0x1_0000 {
      forall header: seq<Word> | |header| == n ensures HeaderStream(header, bytes) == PadHeader(header, bytes) {
        assert ThroughCounter(header, n) == header;
      }
    } else {
      CounterWraps(bytes);
    }
  }

  lemma CounterWraps(bytes: nat)
    requires Quads(bytes) > 0x1_0000
    ensures exists header: seq<Word> | |header| == Quads(bytes) ::
      HeaderStream(header, bytes) != PadHeader(header, bytes)
  {
    var header := OneMark(Quads(bytes), 0x1_0000);
    StreamAt(header, bytes, 0x1_0000);
    Wrap16Counts(0x1_0000);
    assert HeaderStream(header, bytes)[0x1_0000] == 0;
    assert PadHeader(header, bytes)[0x1_0000] == 1;
  }

  function OneMark(n: nat, k: nat): (s: seq<Word>)
    requires k < n
    ensures |s| == n && s[k] == 1 && forall i | 0 <= i < n && i != k :: s[i] == 0
  {
    seq(n, i => if i == k then 1 else 0)
  }

  function AllOnes(n: nat): (s: seq<Word>)
    ensures |s| == n && forall i | 0 <= i < n :: s[i] == 0xFFFF_FFFF
  {
    seq(n, _ => 0xFFFF_FFFF)
  }

  /** Headers of different sizes give different streams. */
  lemma SizeShows(a: nat, b: nat)
    requires a < b
    ensures HeaderStream(AllOnes(Quads(b)), a) != HeaderStream(AllOnes(Quads(b)), b)
  {
    var header := AllOnes(Quads(b));
    var k := a / 4;
    StreamAt(header, b, k);
    if k < |HeaderStream(header, a)| {
      StreamAt(header, a, k);
    }
  }

  /**
   The DMA and interrupt modes count the header in words whatever its unit: for every header
   content they send what the polling mode sends exactly when the unit is words (and the
   polling byte count does not overflow) or the header is empty.
   */
  lemma WordModesAgreeExact(unit: SizeUnit, size: nat)
    requires size < 0x1_0000_0000
    ensures (forall header: seq<Word> | |header| == size ::
              HeaderStream(header, 4 * size) == HeaderStream(header, SizeInBytes(unit, size)))
       <==> size == 0 || (unit == InWords && 4 * size < 0x1_0000_0000)
  {
    if SizeInBytes(unit, size) != 4 * size {
      SizeShows(SizeInBytes(unit, size), 4 * size);
      assert |AllOnes(Quads(4 * size))| == size;
    }
  }
}
