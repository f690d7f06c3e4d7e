/** When the blocks of several GCM calls are those of one message: a question of their sizes. */
module CrypGcmPadding {
  import opened Words

  function ZeroBytes(n: nat): (s: seq<Byte>)
    ensures |s| == n && forall i | 0 <= i < n :: s[i] == 0
  {
    seq(n, _ => 0)
  }

  /** The bytes that n bytes lack to a multiple of 16. */
  function Missing(n: nat): (m: nat)
    ensures m < 16 && (n + m) % 16 == 0 && (m == 0 <==> n % 16 == 0)
  {
    if n % 16 == 0 then 0 else 16 - n % 16
  }

  /** What one call sends for its payload: the payload and zeros to the end of the block. */
  function PadBlock(s: seq<Byte>): (r: seq<Byte>)
    ensures |r| == |s| + Missing(|s|) && r[..|s|] == s
  {
    s + ZeroBytes(Missing(|s|))
  }

  function Joined(parts: seq<seq<Byte>>): seq<Byte> {
    if parts == [] then [] else Joined(parts[..|parts| - 1]) + parts[|parts| - 1]
  }

  /** What several calls send. */
  function SentInParts(parts: seq<seq<Byte>>): seq<Byte> {
    if parts == [] then [] else SentInParts(parts[..|parts| - 1]) + PadBlock(parts[|parts| - 1])
  }

  predicate Sized(parts: seq<seq<Byte>>, sizes: seq<nat>) {
    |parts| == |sizes| && forall i | 0 <= i < |parts| :: |parts[i]| == sizes[i]
  }

  /** Only a call after which nothing comes may end in a partial block. */
  predicate Seamless(sizes: seq<nat>) {
    forall i, j | 0 <= i < j < |sizes| && sizes[j] > 0 :: sizes[i] % 16 == 0
  }

  /** Whole blocks in front do not change what is missing. */
  lemma MissingSum(q: nat, b: nat)
    ensures Missing(16 * q + b) == Missing(b) && (16 * q + b) % 16 == b % 16
  {
  }

  lemma WholeBlocksInFront(a: seq<Byte>, b: seq<Byte>)
    requires |a| % 16 == 0
    ensures PadBlock(a + b) == a + PadBlock(b)
  {
    MissingSum(|a| / 16, |b|);
    var zeros := ZeroBytes(Missing(|b|));
    assert PadBlock(a + b) == (a + b) + zeros == a + (b + zeros);
  }

  lemma {:induction false} AllWhole(parts: seq<seq<Byte>>)
    requires forall i | 0 <= i < |parts| :: |parts[i]| % 16 == 0
    ensures SentInParts(parts) == Joined(parts) && |Joined(parts)| % 16 == 0
  {
    if parts != [] {
      var n := |parts| - 1;
      AllWhole(parts[..n]);
      MissingSum(|Joined(parts[..n])| / 16, |parts[n]|);
      assert PadBlock(parts[n]) == parts[n];
    }
  }

  lemma {:induction false} SeamlessIsWhole(parts: seq<seq<Byte>>, sizes: seq<nat>)
    requires Sized(parts, sizes) && Seamless(sizes)
    ensures SentInParts(parts) == PadBlock(Joined(parts))
  {
    if parts != [] {
      var n := |parts| - 1;
      if sizes[n] == 0 {
        SeamlessIsWhole(parts[..n], sizes[..n]);
        assert parts[n] == [] && PadBlock(parts[n]) == [];
      } else {
        AllWhole(parts[..n]);
        WholeBlocksInFront(Joined(parts[..n]), parts[n]);
      }
    }
  }

  /** Where part i begins in what is sent. */
  lemma {:induction false} PartAt(parts: seq<seq<Byte>>, i: nat)
    requires i < |parts|
    ensures var at := |SentInParts(parts[..i])|;
            && at + |PadBlock(parts[i])| == |SentInParts(parts[..i + 1])| <= |SentInParts(parts)|
            && SentInParts(parts)[at..at + |PadBlock(parts[i])|] == PadBlock(parts[i])
    decreases |parts|
  {
    var n := |parts| - 1;
    assert parts[..i + 1][..i] == parts[..i];
    if i < n {
      var at := |SentInParts(parts[..i])|;
      assert parts[..n][..i] == parts[..i] && parts[..n][..i + 1] == parts[..i + 1];
      PartAt(parts[..n], i);
      InFront(SentInParts(parts[..n]), PadBlock(parts[n]), at, at + |PadBlock(parts[i])|);
    } else {
      assert parts[..i + 1] == parts;
    }
  }

  lemma InFront(a: seq<Byte>, b: seq<Byte>, i: nat, j: nat)
    requires i <= j <= |a|
    ensures (a + b)[i..j] == a[i..j]
  {
  }

  lemma {:induction false} PartsInOrder(parts: seq<seq<Byte>>, i: nat, j: nat)
    requires i <= j <= |parts|
    ensures |SentInParts(parts[..i])| <= |SentInParts(parts[..j])|
    decreases j
  {
    if i < j {
      PartsInOrder(parts, i, j - 1);
      assert parts[..j][..j - 1] == parts[..j - 1];
    }
  }

  /** Parts of nothing but 0xFF. */
  function Marked(sizes: seq<nat>): (parts: seq<seq<Byte>>)
    ensures Sized(parts, sizes) && forall i | 0 <= i < |parts| :: AllMarks(parts[i])
  {
    seq(|sizes|, i requires 0 <= i < |sizes| => seq(sizes[i], _ => 0xFF))
  }

  predicate AllMarks(s: seq<Byte>) { forall k | 0 <= k < |s| :: s[k] == 0xFF }

  lemma {:induction false} JoinedMarks(parts: seq<seq<Byte>>)
    requires forall i | 0 <= i < |parts| :: AllMarks(parts[i])
    ensures AllMarks(Joined(parts))
  {
    if parts != [] {
      JoinedMarks(parts[..|parts| - 1]);
    }
  }

  /** A partial block with something behind it leaves a zero before a mark, which one call never does. */
  lemma SeamShows(sizes: seq<nat>, i: nat, j: nat)
    requires i < j < |sizes| && sizes[j] > 0 && sizes[i] % 16 != 0
    ensures SentInParts(Marked(sizes)) != PadBlock(Joined(Marked(sizes)))
  {
    var parts := Marked(sizes);
    var sent, whole := SentInParts(parts), PadBlock(Joined(parts));
    PartAt(parts, i);
    PartAt(parts, j);
    PartsInOrder(parts, i + 1, j);
    JoinedMarks(parts);
    var gap, mark := |SentInParts(parts[..i])| + sizes[i], |SentInParts(parts[..j])|;
    assert sent[gap] == PadBlock(parts[i])[sizes[i]] == 0;
    assert sent[mark] == PadBlock(parts[j])[0] == parts[j][0] == 0xFF;
  }

  /**
   Chunking: calls of these sizes send what one call on everything would, whatever the payload,
   exactly if every call with a non-empty one after it is whole blocks.
   */
  lemma ChunkingExact(sizes: seq<nat>)
    ensures (forall parts | Sized(parts, sizes) :: SentInParts(parts) == PadBlock(Joined(parts))) <==> Seamless(sizes)
  {
    if Seamless(sizes) {
      forall parts | Sized(parts, sizes) ensures SentInParts(parts) == PadBlock(Joined(parts)) {
        SeamlessIsWhole(parts, sizes);
      }
    } else {
      var i, j :| 0 <= i < j < |sizes| && sizes[j] > 0 && sizes[i] % 16 != 0;
      SeamShows(sizes, i, j);
    }
  }

  /** Two calls of one byte each send two blocks, where one call of two bytes sends one. */
  lemma TwoBytes(a: Byte, b: Byte)
    ensures SentInParts([[a], [b]]) == [a] + ZeroBytes(15) + [b] + ZeroBytes(15)
    ensures PadBlock(Joined([[a], [b]])) == [a, b] + ZeroBytes(14)
  {
    var parts := [[a], [b]];
    assert parts[..1] == [[a]] && [[a]][..0] == [];
    assert SentInParts([[a]]) == PadBlock([a]) && Joined([[a]]) == [a];
    assert Joined(parts) == [a, b] && Missing(1) == 15 && Missing(2) == 14;
  }

  /** The last call with any payload, or else the first call. */
  function LastPayload(sizes: seq<nat>): (last: nat)
    requires sizes != []
    ensures last < |sizes| && Total(sizes[..last + 1]) == Total(sizes)
    ensures forall i | last < i < |sizes| :: sizes[i] == 0
    ensures Seamless(sizes) ==> forall i | 0 <= i < last :: sizes[i] % 16 == 0
  {
    var n := |sizes| - 1;
    if n == 0 || sizes[n] > 0 then
      TakeAll(sizes);
      n
    else
      var last := LastPayload(sizes[..n]);
      assert sizes[..n][..last + 1] == sizes[..last + 1];
      last
  }
}
