/** The calls of a GCM message as one message: what they send, byte for byte, and where they leave the core. */
module CrypGcmWhole {
  import opened Words
  import opened CrypCore
  import opened CrypHandle
  import opened CrypHeaderPhase
  import A = CrypAes
  import opened CrypGcm
  import opened CrypDma
  import opened CrypApi
  import opened CrypGcmApi
  import opened CrypTag
  import opened CrypGcmMessage
  import opened CrypGcmPadding
  import opened CrypGcmRuns

  // Bytes

  lemma {:induction false} BytesJoin(a: seq<Word>, b: seq<Word>)
    ensures Bytes(a + b) == Bytes(a) + Bytes(b)
  {
    if b == [] {
      assert a + b == a;
    } else {
      var n := |b| - 1;
      BytesJoin(a, b[..n]);
      assert (a + b)[..|a + b| - 1] == a + b[..n];
    }
  }

  lemma {:induction false} BytesOfZeros(n: nat)
    ensures Bytes(Zeros(n)) == ZeroBytes(4 * n)
  {
    if n > 0 {
      BytesOfZeros(n - 1);
      assert Zeros(n)[..n - 1] == Zeros(n - 1);
    }
  }

  /** The words of a job, and the bytes of them that are its payload. */
  ghost function WordsIn(job: GcmJob): seq<Word> { job.full.src + job.tail }

  ghost function Payload(job: GcmJob): (s: seq<Byte>)
    requires job.Valid()
    ensures |s| == job.Bytes()
  {
    Bytes(WordsIn(job))[..job.Bytes()]
  }

  /** The last word of a job has nothing but zeros behind the payload. */
  ghost predicate Clean(job: GcmJob)
    requires job.Valid()
  {
    Bytes(WordsIn(job))[job.Bytes()..] == ZeroBytes(4 * |WordsIn(job)| - job.Bytes())
  }

  lemma PadShows(all: seq<Byte>, n: nat, gap: nat)
    requires n <= |all| && Missing(n) == |all| - n + gap
    ensures all + ZeroBytes(gap) == PadBlock(all[..n]) <==> all[n..] == ZeroBytes(|all| - n)
  {
    var slack := |all| - n;
    assert ZeroBytes(Missing(n)) == ZeroBytes(slack) + ZeroBytes(gap);
    assert all == all[..n] + all[n..];
    assert (all + ZeroBytes(gap))[n..][..slack] == all[n..];
    assert PadBlock(all[..n])[n..][..slack] == ZeroBytes(slack);
  }

  lemma MissingIs(blocks: nat, rest: nat)
    requires rest < 16
    ensures Missing(16 * blocks + rest) == if rest == 0 then 0 else 16 - rest
  {
  }

  /** A call sends its payload, padded with zeros, exactly if there is nothing else in its last word. */
  lemma SentBytes(job: GcmJob)
    requires job.Valid()
    ensures Bytes(job.Sent()) == PadBlock(Payload(job)) <==> Clean(job)
  {
    var gap := if job.rest == 0 then 0 else 4 - |job.tail|;
    assert job.Sent() == WordsIn(job) + Zeros(gap);
    BytesJoin(WordsIn(job), Zeros(gap));
    BytesOfZeros(gap);
    MissingIs(job.full.blocks, job.rest);
    PadShows(Bytes(WordsIn(job)), job.Bytes(), 4 * gap);
  }

  /** Everything some jobs send, and their payloads. */
  ghost function SentBy(jobs: seq<GcmJob>): seq<Word>
    requires forall i | 0 <= i < |jobs| :: jobs[i].Valid()
  {
    if jobs == [] then []
    else
      var last := jobs[|jobs| - 1];
      assert last.Valid();
      SentBy(jobs[..|jobs| - 1]) + last.Sent()
  }

  ghost function Payloads(jobs: seq<GcmJob>): (parts: seq<seq<Byte>>)
    requires forall i | 0 <= i < |jobs| :: jobs[i].Valid()
    ensures |parts| == |jobs| && forall i | 0 <= i < |jobs| :: parts[i] == Payload(jobs[i])
  {
    seq(|jobs|, i requires 0 <= i < |jobs| => Payload(jobs[i]))
  }

  lemma {:induction false} SentByBytes(jobs: seq<GcmJob>)
    requires forall i | 0 <= i < |jobs| :: jobs[i].Valid() && Clean(jobs[i])
    ensures Bytes(SentBy(jobs)) == SentInParts(Payloads(jobs))
  {
    if jobs != [] {
      var n := |jobs| - 1;
      SentByBytes(jobs[..n]);
      assert Payloads(jobs)[..n] == Payloads(jobs[..n]);
      SentBytes(jobs[n]);
      BytesJoin(SentBy(jobs[..n]), jobs[n].Sent());
    }
  }

  lemma {:induction false} JobsValid(jobs: seq<GcmJob>, direction: Direction, unit: SizeUnit, sizes: seq<Half>)
    requires Jobs(jobs, direction, unit, sizes)
    ensures forall i | 0 <= i < |jobs| :: jobs[i].Valid() && jobs[i].Bytes() == ByteSizes(unit, sizes)[i]
  {
    if jobs != [] {
      JobsValid(jobs[..|jobs| - 1], direction, unit, sizes);
    }
  }

  lemma SentByOne(job: GcmJob)
    requires job.Valid()
    ensures SentBy([job]) == job.Sent()
  {
    assert [job][..0] == [];
  }

  /** What the calls of a run write to DIN after the header. */
  lemma {:induction false} RunSends(jobs: seq<GcmJob>, direction: Direction, unit: SizeUnit, sizes: seq<Half>)
    requires jobs != [] && Jobs(jobs, direction, unit, sizes)
    requires forall i | 0 <= i < |jobs| :: jobs[i].Valid()
    ensures jobs[|jobs| - 1].full.din0 + jobs[|jobs| - 1].Sent() == jobs[0].full.din0 + SentBy(jobs)
  {
    var n := |jobs| - 1;
    if n > 0 {
      var din0, before, sent := jobs[0].full.din0, SentBy(jobs[..n]), jobs[n].Sent();
      RunSends(jobs[..n], direction, unit, sizes);
      assert jobs[n].full.din0 == din0 + before;
      assert din0 + before + sent == din0 + (before + sent);
    } else {
      assert jobs == [jobs[0]];
      SentByOne(jobs[0]);
    }
  }

  // One job

  /** The words of some jobs, and what the core produces for them. */
  ghost function WordsOfAll(jobs: seq<GcmJob>): seq<Word> {
    if jobs == [] then [] else WordsOfAll(jobs[..|jobs| - 1]) + WordsIn(jobs[|jobs| - 1])
  }

  ghost function ProducedBy(jobs: seq<GcmJob>): seq<Word>
    requires forall i | 0 <= i < |jobs| :: jobs[i].Valid()
  {
    if jobs == [] then []
    else
      var last := jobs[|jobs| - 1];
      assert last.Valid();
      ProducedBy(jobs[..|jobs| - 1]) + last.Produced()
  }

  /** A job does what a run of jobs from the same start does, the last of which is `last`. */
  ghost predicate SameWork(whole: GcmJob, first: GcmJob, last: GcmJob, direction: Direction, bytes: nat,
                           words: seq<Word>, sent: seq<Word>, produced: seq<Word>)
  {
    && Does(whole, direction, bytes) && WordsIn(whole) == words
    && whole.full.core == first.full.core && whole.full.chain == first.full.chain && whole.full.din0 == first.full.din0
    && last.Valid() && whole.FinalChain() == last.FinalChain() && whole.lastCore == last.lastCore
    && whole.Sent() == sent && whole.Produced() == produced
  }

  /** A job on whole blocks and one that follows it are one job. */
  lemma AppendJob(whole: GcmJob, next: GcmJob, direction: Direction) returns (both: GcmJob)
    requires Does(whole, direction, whole.Bytes()) && whole.rest == 0 && Does(next, direction, next.Bytes())
    requires next.full.core == whole.lastCore && next.full.chain == whole.FinalChain()
    ensures Does(both, direction, whole.Bytes() + next.Bytes()) && WordsIn(both) == WordsIn(whole) + WordsIn(next)
    ensures both.full.core == whole.full.core && both.full.chain == whole.full.chain
      && both.full.din0 == whole.full.din0
    ensures both.FinalChain() == next.FinalChain() && both.lastCore == next.lastCore
    ensures both.Sent() == whole.Sent() + next.Sent() && both.Produced() == whole.Produced() + next.Produced()
  {
    var core, chain := whole.full.core, whole.full.chain;
    both := JobOf(core, chain, whole.full.din0, direction, whole.full.src + next.full.src, next.tail, next.rest,
                  whole.full.out0);
    NothingLeft(whole);
    AppendFull(whole.full, next.full, both.full);
    AppendTail(whole, next, both);
  }

  lemma NothingLeft(job: GcmJob)
    requires job.Valid() && job.rest == 0
    ensures job.Sent() == WordsIn(job) == job.full.src && job.Produced() == job.full.result
    ensures job.FinalChain() == job.full.Chain(job.full.blocks)
  {
  }

  lemma AppendFull(a: A.Job, b: A.Job, ab: A.Job)
    requires a.Valid() && b.Valid() && ab.Valid() && ab.blocks == a.blocks + b.blocks
    requires b.core == ab.core == a.core && ab.chain == a.chain && b.chain == a.Chain(a.blocks)
      && ab.src == a.src + b.src
    ensures ab.Chain(ab.blocks) == b.Chain(b.blocks) && ab.result == a.result + b.result
  {
    Split(a.core, a.chain, a.src, b.src, a.blocks, b.blocks);
    ResultIs(a);
    ResultIs(b);
    ResultIs(ab);
  }

  lemma AppendTail(whole: GcmJob, next: GcmJob, both: GcmJob)
    requires next.Valid() && both.Valid() && both.rest == next.rest && both.tail == next.tail
      && both.lastCore == next.lastCore
    requires both.full.src == whole.full.src + next.full.src && both.full.result == whole.full.result + next.full.result
    requires both.full.Chain(both.full.blocks) == next.full.Chain(next.full.blocks)
    ensures both.FinalChain() == next.FinalChain() && WordsIn(both) == whole.full.src + WordsIn(next)
    ensures both.Sent() == whole.full.src + next.Sent() && both.Produced() == whole.full.result + next.Produced()
  {
    assert both.Padded() == next.Padded();
  }

  lemma ResultIs(job: A.Job)
    requires job.Valid()
    ensures job.result == Output(job.core, job.chain, job.src, job.blocks)
  {
    job.ValidMeansOutput(job.blocks);
    TakeAll(job.result);
  }

  lemma {:induction false} WholeTotal(sizes: seq<nat>)
    requires forall i | 0 <= i < |sizes| :: sizes[i] % 16 == 0
    ensures Total(sizes) % 16 == 0
  {
    if sizes != [] {
      WholeTotal(sizes[..|sizes| - 1]);
    }
  }

  /** With something still to come, all calls so far were whole blocks. */
  lemma WholeSoFar(unit: SizeUnit, sizes: seq<Half>, n: nat)
    requires n < |sizes| && Seamless(ByteSizes(unit, sizes)) && EffectiveSize(unit, sizes[n]) > 0
    ensures TotalBytes(unit, sizes[..n]) % 16 == 0
  {
    assert ByteSizes(unit, sizes[..n]) == ByteSizes(unit, sizes)[..n];
    WholeTotal(ByteSizes(unit, sizes[..n]));
  }

  lemma NothingMore(whole: GcmJob, next: GcmJob, direction: Direction)
    requires whole.Valid() && Does(next, direction, 0)
    requires next.full.core == whole.lastCore && next.full.chain == whole.FinalChain()
    ensures next.FinalChain() == whole.FinalChain() && next.lastCore == whole.lastCore
    ensures WordsIn(next) == next.Sent() == next.Produced() == []
  {
  }

  lemma FirstJob(job: GcmJob, direction: Direction, unit: SizeUnit, sizes: seq<Half>)
    requires sizes != [] && Does(job, direction, EffectiveSize(unit, sizes[0]))
    ensures SameWork(job, job, job, direction, TotalBytes(unit, sizes[..1]), WordsOfAll([job]), SentBy([job]),
                     ProducedBy([job]))
  {
    TotalBytesPrefix(unit, sizes, 0);
    assert [job][..0] == [] && sizes[..0] == [];
  }

  lemma NoRest(blocks: nat, rest: nat, total: nat)
    requires rest < 16 && 16 * blocks + rest == total && total % 16 == 0
    ensures rest == 0
  {
  }

  lemma OneMore(before: GcmJob, first: GcmJob, last: GcmJob, next: GcmJob, direction: Direction, total: nat,
                words: seq<Word>, sent: seq<Word>, produced: seq<Word>) returns (whole: GcmJob)
    requires SameWork(before, first, last, direction, total, words, sent, produced)
    requires Does(next, direction, next.Bytes()) && Follows(last, next) && (next.Bytes() > 0 ==> total % 16 == 0)
    ensures SameWork(whole, first, next, direction, total + next.Bytes(),
                     words + WordsIn(next), sent + next.Sent(), produced + next.Produced())
  {
    if next.Bytes() == 0 {
      whole := before;
      NothingMore(whole, next, direction);
      assert words + [] == words && sent + [] == sent && produced + [] == produced;
    } else {
      NoRest(before.full.blocks, before.rest, total);
      whole := AppendJob(before, next, direction);
    }
  }

  /**
   The jobs of a run whose sizes leave no seam are one job: it sends the same words, produces the
   same words, and leaves the same hash and core, whatever the modes of the calls were.
   */
  lemma {:induction false} JobsMakeOne(jobs: seq<GcmJob>, direction: Direction, unit: SizeUnit, sizes: seq<Half>)
    returns (whole: GcmJob)
    requires 0 < |jobs| <= |sizes| && Jobs(jobs, direction, unit, sizes) && Seamless(ByteSizes(unit, sizes))
    requires forall i | 0 <= i < |jobs| :: jobs[i].Valid()
    ensures SameWork(whole, jobs[0], jobs[|jobs| - 1], direction, TotalBytes(unit, sizes[..|jobs|]),
                     WordsOfAll(jobs), SentBy(jobs), ProducedBy(jobs))
    decreases |jobs|
  {
    var n := |jobs| - 1;
    if n == 0 {
      whole := jobs[0];
      assert jobs == [jobs[0]];
      FirstJob(jobs[0], direction, unit, sizes);
    } else {
      var before := JobsMakeOne(jobs[..n], direction, unit, sizes);
      TotalBytesPrefix(unit, sizes, n);
      var total := TotalBytes(unit, sizes[..n]);
      if jobs[n].Bytes() > 0 {
        WholeSoFar(unit, sizes, n);
      }
      whole := OneMore(before, jobs[0], jobs[n - 1], jobs[n], direction, total,
                       WordsOfAll(jobs[..n]), SentBy(jobs[..n]), ProducedBy(jobs[..n]));
    }
  }

  /** A run without seams is one job on the words its calls were given. */
  lemma RunIsOneJob(jobs: seq<GcmJob>, direction: Direction, unit: SizeUnit, sizes: seq<Half>) returns (whole: GcmJob)
    requires 0 < |jobs| == |sizes| && Jobs(jobs, direction, unit, sizes) && Seamless(ByteSizes(unit, sizes))
    ensures forall i | 0 <= i < |jobs| :: jobs[i].Valid()
    ensures SameWork(whole, jobs[0], jobs[|jobs| - 1], direction, TotalBytes(unit, sizes), WordsOfAll(jobs),
                     SentBy(jobs), ProducedBy(jobs))
    ensures jobs[|jobs| - 1].full.din0 + jobs[|jobs| - 1].Sent() == whole.full.din0 + whole.Sent()
  {
    JobsValid(jobs, direction, unit, sizes);
    TakeAll(sizes);
    whole := JobsMakeOne(jobs, direction, unit, sizes);
    RunSends(jobs, direction, unit, sizes);
  }

  // Where the output is

  /** Two stretches of a buffer have nothing in common. */
  predicate Apart(a: nat, lengthA: nat, b: nat, lengthB: nat) { a + lengthA <= b || b + lengthB <= a }

  /** The payload words that a job stored are in the buffer. */
  ghost predicate InPlace(job: GcmJob, at: nat, buffer: seq<Word>) {
    var words := |WordsIn(job)|;
    && job.Valid() && words <= |job.Produced()| && at + words <= |buffer|
    && buffer[at..at + words] == job.Produced()[..words]
  }

  /** The output of a call stays in place if no later call is pointed there. */
  lemma {:induction false} OutputStays(jobs: seq<GcmJob>, m: Calls, out0: seq<Word>, buffer: seq<Word>, i: nat)
    requires Outputs(jobs, m, out0, buffer) && i < |jobs|
    requires forall j | i < j < |jobs| ::
      jobs[j].Valid() && Apart(m.outAt(i), |WordsIn(jobs[i])|, m.outAt(j), Stored(m.dma(j), jobs[j]))
    ensures InPlace(jobs[i], m.outAt(i), buffer)
    decreases |jobs|
  {
    var n := |jobs| - 1;
    if i < n {
      OutputStays(jobs[..n], m, out0, jobs[n].full.out0, i);
      StoredElsewhere(buffer, m.dma(n), jobs[n], m.outAt(n), jobs[i], m.outAt(i));
    } else {
      StoredHere(buffer, m.dma(n), jobs[n], m.outAt(n));
    }
  }

  lemma StoredHere(buffer: seq<Word>, dma: bool, job: GcmJob, at: nat)
    requires StoredAt(buffer, dma, job, at)
    ensures InPlace(job, at, buffer)
  {
    AtLeastWords(dma, job);
  }

  lemma StoredElsewhere(buffer: seq<Word>, dma: bool, next: GcmJob, at: nat, job: GcmJob, a: nat)
    requires StoredAt(buffer, dma, next, at) && Apart(a, |WordsIn(job)|, at, Stored(dma, next))
      && InPlace(job, a, next.full.out0)
    ensures InPlace(job, a, buffer)
  {
    var words := |WordsIn(job)|;
    assert buffer[a..a + words] == next.full.out0[a..a + words];
  }

  lemma AtLeastWords(dma: bool, job: GcmJob)
    requires job.Valid()
    ensures |WordsIn(job)| <= Stored(dma, job) <= |job.Produced()|
    ensures job.rest == 0 ==> |WordsIn(job)| == Stored(dma, job) == |job.Produced()|
    ensures job.Bytes() == 0 ==> WordsIn(job) == job.Produced() == []
  {
    StoredAgree(job);
  }

  lemma WordsCount(job: GcmJob)
    requires job.Valid()
    ensures |WordsIn(job)| == Quads(job.Bytes())
  {
    WordsOf(job.full.blocks, job.rest);
  }

  /** Each call goes on in input and output where the ones before it ended. */
  ghost predicate Contiguous(m: Calls, unit: SizeUnit, inBase: nat, outBase: nat) {
    forall j | 0 <= j < |m.sizes| && EffectiveSize(unit, m.sizes[j]) > 0 ::
      m.inAt(j) == inBase + TotalBytes(unit, m.sizes[..j]) / 4
        && m.outAt(j) == outBase + TotalBytes(unit, m.sizes[..j]) / 4
  }

  predicate SameFrom(a: seq<Word>, b: seq<Word>, from: nat)
    requires |a| == |b|
  {
    forall p | from <= p < |a| :: a[p] == b[p]
  }

  /** The words so far are the input's, and what was produced for them is in the output. */
  ghost predicate InOrder(total: nat, words: seq<Word>, produced: seq<Word>, input0: seq<Word>, inBase: nat,
                          out0: seq<Word>, buffer: seq<Word>, outBase: nat)
  {
    |words| == Quads(total) && Placed(total % 16 == 0, words, produced, input0, inBase, out0, buffer, outBase)
  }

  /** After whole blocks, nothing behind them has changed. */
  ghost predicate Placed(whole: bool, words: seq<Word>, produced: seq<Word>, input0: seq<Word>, inBase: nat,
                         out0: seq<Word>, buffer: seq<Word>, outBase: nat)
  {
    && |words| <= |produced| && inBase + |words| <= |input0| && outBase + |words| <= |buffer| == |out0|
    && words == input0[inBase..inBase + |words|]
    && buffer[outBase..outBase + |words|] == produced[..|words|]
    && (whole ==> |produced| == |words| && SameFrom(buffer, out0, outBase + |words|))
  }

  /** One more call with payload, as far as its words and those it stores are concerned. */
  lemma PlacedOn(words: seq<Word>, produced: seq<Word>, input0: seq<Word>, inBase: nat, out0: seq<Word>, outBase: nat,
                 given: seq<Word>, dma: bool, job: GcmJob, buffer: seq<Word>)
    requires Placed(true, words, produced, input0, inBase, out0, job.full.out0, outBase)
    requires |given| == |input0| && SameFrom(given, input0, inBase + |words|)
    requires Contains(given, inBase + |words|, job) && StoredAt(buffer, dma, job, outBase + |words|)
    ensures Placed(job.rest == 0, words + WordsIn(job), produced + job.Produced(), input0, inBase, out0, buffer,
                   outBase)
  {
    AtLeastWords(dma, job);
    TakeAll(produced);
    TakenOn(input0, given, inBase, |words|, words, WordsIn(job));
    StoredOn(buffer, dma, job, outBase, |words|, outBase + |words|, |WordsIn(job)|, produced);
    if job.rest == 0 {
      NothingBehind(buffer, dma, job, outBase + |words|, out0, outBase + |words| + |WordsIn(job)|);
    }
  }

  lemma InOrderOn(total: nat, words: seq<Word>, produced: seq<Word>, input0: seq<Word>, inBase: nat,
                  out0: seq<Word>, outBase: nat, given: seq<Word>, dma: bool, job: GcmJob, buffer: seq<Word>,
                  total1: nat, words1: seq<Word>, produced1: seq<Word>)
    requires InOrder(total, words, produced, input0, inBase, out0, job.full.out0, outBase) && total % 16 == 0
    requires |given| == |input0| && SameFrom(given, input0, inBase + |words|)
    requires Contains(given, inBase + |words|, job) && StoredAt(buffer, dma, job, outBase + |words|)
    requires total1 == total + job.Bytes() && words1 == words + WordsIn(job) && produced1 == produced + job.Produced()
    ensures InOrder(total1, words1, produced1, input0, inBase, out0, buffer, outBase)
  {
    WordsCount(job);
    SizesAdd(total, job.Bytes(), job.full.blocks, job.rest);
    PlacedOn(words, produced, input0, inBase, out0, outBase, given, dma, job, buffer);
  }

  lemma NothingBehind(buffer: seq<Word>, dma: bool, job: GcmJob, at: nat, out0: seq<Word>, end: nat)
    requires StoredAt(buffer, dma, job, at) && |out0| == |buffer| && SameFrom(job.full.out0, out0, at)
    requires end == at + Stored(dma, job)
    ensures SameFrom(buffer, out0, end)
  {
  }

  /** Output written over the input has not reached what is still to be read. */
  lemma Unspoilt(total: nat, words: seq<Word>, produced: seq<Word>, input0: seq<Word>, inBase: nat,
                 out0: seq<Word>, buffer: seq<Word>, outBase: nat, given: seq<Word>)
    requires InOrder(total, words, produced, input0, inBase, out0, buffer, outBase) && total % 16 == 0
    requires given == input0 || (given == buffer && input0 == out0 && outBase <= inBase)
    ensures |given| == |input0| && SameFrom(given, input0, inBase + |words|)
  {
  }

  lemma TakenOn(input0: seq<Word>, given: seq<Word>, base: nat, n: nat, words: seq<Word>, next: seq<Word>)
    requires |given| == |input0| && base + n + |next| <= |given| && n == |words| && words == input0[base..base + n]
    requires given[base + n..base + n + |next|] == next
    requires SameFrom(given, input0, base + n)
    ensures words + next == input0[base..base + n + |next|]
  {
    assert input0[base + n..base + n + |next|] == next;
    Join(input0, base, base + n, base + n + |next|);
  }

  lemma StoredOn(buffer: seq<Word>, dma: bool, job: GcmJob, base: nat, n: nat, at: nat, w: nat, produced: seq<Word>)
    requires StoredAt(buffer, dma, job, at) && at == base + n && w <= Stored(dma, job) && |produced| == n
    requires job.full.out0[base..at] == produced
    ensures buffer[base..at + w] == (produced + job.Produced())[..n + w]
  {
    assert buffer[base..at] == produced && buffer[at..at + w] == job.Produced()[..w];
    Join(buffer, base, at, at + w);
    TakeBehind(produced + job.Produced(), produced, job.Produced(), w);
  }

  lemma SizesAdd(total: nat, bytes: nat, blocks: nat, rest: nat)
    requires total % 16 == 0 && bytes == 16 * blocks + rest && rest < 16
    ensures Quads(total + bytes) == Quads(total) + Quads(bytes) && Quads(total) == total / 4
    ensures (total + bytes) % 16 == 0 <==> rest == 0
  {
    var q := total / 16;
    WordsOf(q, 0);
    WordsOf(blocks, rest);
    WordsOf(q + blocks, rest);
    PaddingIs(total + bytes, q + blocks, rest);
  }

  /** One more call: it goes on where the ones before ended, or has no payload. */
  lemma InOrderNext(total0: nat, words0: seq<Word>, produced0: seq<Word>, input0: seq<Word>, inBase: nat,
                    out0: seq<Word>, outBase: nat, given: seq<Word>, inAt: nat, dma: bool, job: GcmJob,
                    buffer: seq<Word>, outAt: nat)
    returns (total: nat, words: seq<Word>, produced: seq<Word>)
    requires InOrder(total0, words0, produced0, input0, inBase, out0, job.full.out0, outBase)
    requires given == input0 || (given == job.full.out0 && input0 == out0 && outBase <= inBase)
    requires Contains(given, inAt, job) && StoredAt(buffer, dma, job, outAt)
    requires job.Bytes() > 0 ==> total0 % 16 == 0 && inAt == inBase + |words0| && outAt == outBase + |words0|
    ensures total == total0 + job.Bytes() && words == words0 + WordsIn(job) && produced == produced0 + job.Produced()
    ensures InOrder(total, words, produced, input0, inBase, out0, buffer, outBase)
  {
    if job.Bytes() > 0 {
      total, words, produced := total0 + job.Bytes(), words0 + WordsIn(job), produced0 + job.Produced();
      Unspoilt(total0, words0, produced0, input0, inBase, out0, job.full.out0, outBase, given);
      InOrderOn(total0, words0, produced0, input0, inBase, out0, outBase, given, dma, job, buffer,
                total, words, produced);
    } else {
      total, words, produced := total0, words0, produced0;
      EmptyStores(dma, job, outAt, buffer);
    }
  }

  lemma EmptyStores(dma: bool, job: GcmJob, at: nat, buffer: seq<Word>)
    requires StoredAt(buffer, dma, job, at) && job.Bytes() == 0
    ensures buffer == job.full.out0 && WordsIn(job) == [] && job.Produced() == []
  {
    AtLeastWords(dma, job);
  }

  lemma Positions(m: Calls, unit: SizeUnit, inBase: nat, outBase: nat, n: nat, total: nat)
    requires n < |m.sizes| && Seamless(ByteSizes(unit, m.sizes)) && EffectiveSize(unit, m.sizes[n]) > 0
    requires Contiguous(m, unit, inBase, outBase) && total == TotalBytes(unit, m.sizes[..n])
    ensures total % 16 == 0 && m.inAt(n) == inBase + Quads(total) && m.outAt(n) == outBase + Quads(total)
  {
    WholeSoFar(unit, m.sizes, n);
    SizesAdd(total, 0, 0, 0);
  }

  lemma NothingYet(input0: seq<Word>, inBase: nat, out0: seq<Word>, outBase: nat)
    requires inBase <= |input0| && outBase <= |out0|
    ensures InOrder(0, [], [], input0, inBase, out0, out0, outBase)
  {
  }

  /** A run of calls without seams, each going on where the ones before ended, and where its buffers stand. */
  ghost predicate Orderly(jobs: seq<GcmJob>, m: Calls, unit: SizeUnit, input0: seq<Word>, inBase: nat,
                          out0: seq<Word>, buffer: seq<Word>, outBase: nat)
  {
    && |jobs| <= |m.sizes| && Jobs(jobs, m.direction, unit, m.sizes) && Seamless(ByteSizes(unit, m.sizes))
    && Inputs(jobs, m, input0) && Outputs(jobs, m, out0, buffer) && Contiguous(m, unit, inBase, outBase)
    && inBase <= |input0| && outBase <= |out0| && (m.input == m.output ==> input0 == out0 && outBase <= inBase)
    && forall i | 0 <= i < |jobs| :: jobs[i].Valid()
  }

  lemma OrderlyBefore(jobs: seq<GcmJob>, m: Calls, unit: SizeUnit, input0: seq<Word>, inBase: nat,
                      out0: seq<Word>, buffer: seq<Word>, outBase: nat, n: nat)
    requires Orderly(jobs, m, unit, input0, inBase, out0, buffer, outBase) && n + 1 == |jobs|
    ensures Orderly(jobs[..n], m, unit, input0, inBase, out0, jobs[n].full.out0, outBase)
  {
  }

  /** The last call of such a run. */
  lemma OrderlyLast(jobs: seq<GcmJob>, m: Calls, unit: SizeUnit, input0: seq<Word>, inBase: nat, out0: seq<Word>,
                    buffer: seq<Word>, outBase: nat, n: nat, total0: nat, words0: seq<Word>, produced0: seq<Word>)
    returns (total: nat, words: seq<Word>, produced: seq<Word>)
    requires Orderly(jobs, m, unit, input0, inBase, out0, buffer, outBase) && n + 1 == |jobs|
    requires total0 == TotalBytes(unit, m.sizes[..n])
    requires InOrder(total0, words0, produced0, input0, inBase, out0, jobs[n].full.out0, outBase)
    ensures total == TotalBytes(unit, m.sizes[..n + 1])
    ensures words == words0 + WordsIn(jobs[n]) && produced == produced0 + jobs[n].Produced()
    ensures InOrder(total, words, produced, input0, inBase, out0, buffer, outBase)
  {
    TotalBytesPrefix(unit, m.sizes, n);
    if jobs[n].Bytes() > 0 {
      Positions(m, unit, inBase, outBase, n, total0);
    }
    total, words, produced := InOrderNext(total0, words0, produced0, input0, inBase, out0, outBase,
                                          Given(m, input0, jobs[n]), m.inAt(n), m.dma(n), jobs[n], buffer, m.outAt(n));
  }

  /** Such a run takes its words from the input in order and leaves what it produces in the output, also in place. */
  lemma {:induction false} RunInOrder(jobs: seq<GcmJob>, m: Calls, unit: SizeUnit, input0: seq<Word>, inBase: nat,
                                      out0: seq<Word>, buffer: seq<Word>, outBase: nat)
    returns (total: nat, words: seq<Word>, produced: seq<Word>)
    requires Orderly(jobs, m, unit, input0, inBase, out0, buffer, outBase)
    ensures total == TotalBytes(unit, m.sizes[..|jobs|]) && words == WordsOfAll(jobs) && produced == ProducedBy(jobs)
    ensures InOrder(total, words, produced, input0, inBase, out0, buffer, outBase)
    decreases |jobs|
  {
    if jobs == [] {
      total, words, produced := 0, [], [];
      assert m.sizes[..0] == [] && ByteSizes(unit, []) == [];
      NothingYet(input0, inBase, out0, outBase);
    } else {
      var n := |jobs| - 1;
      OrderlyBefore(jobs, m, unit, input0, inBase, out0, buffer, outBase, n);
      total, words, produced := RunInOrder(jobs[..n], m, unit, input0, inBase, out0, jobs[n].full.out0, outBase);
      total, words, produced :=
        OrderlyLast(jobs, m, unit, input0, inBase, out0, buffer, outBase, n, total, words, produced);
    }
  }

  /**
   An authenticated message in any mix of polling and DMA calls, its sizes leaving no seam: DIN and
   tag are those of one call on everything, from the same header, and so is the output if the calls
   lie one behind the other.
   */
  method MixedMessage(h: Handle, m: Calls, tag: array<Word>, ghost inBase: nat, ghost outBase: nat)
    returns (status: Status, ghost header: HeaderJob, ghost jobs: seq<GcmJob>, ghost whole: GcmJob)
    requires MayCall(h) && h.init.configOnce && h.NeedsConfig() && h.state == Ready && !h.locked && m.sizes != []
    requires Runs(h.init.dataUnit, m) && AllFit(h.init, m) && Seamless(ByteSizes(h.init.dataUnit, m.sizes))
    requires inBase <= m.input.Length && outBase <= m.output.Length && (m.input == m.output ==> outBase <= inBase)
    requires tag.Length >= 4 && tag != m.input
    modifies h, m.output, tag
    ensures status == Ok && Does(whole, m.direction, TotalBytes(h.init.dataUnit, m.sizes))
      && WordsIn(whole) == WordsOfAll(jobs)
    ensures old(HeaderPlan(h, m.dma(0), m.direction, header) && PayloadStart(h, m.direction, header, whole.full))
    ensures |jobs| == |m.sizes| && Jobs(jobs, m.direction, h.init.dataUnit, m.sizes)
    ensures Inputs(jobs, m, old(m.input[..]))
    ensures tag != m.output ==> Outputs(jobs, m, old(m.output[..]), m.output[..])
    ensures Contiguous(m, h.init.dataUnit, inBase, outBase) && tag != m.output ==>
      InOrder(TotalBytes(h.init.dataUnit, m.sizes), WordsIn(whole), whole.Produced(), old(m.input[..]), inBase,
              old(m.output[..]), m.output[..], outBase)
    ensures var sum := TotalBytes(h.init.dataUnit, m.sizes) % 0x1_0000_0000;
            var block := LengthBlock(HeaderBits(h.init.headerUnit, h.init.headerSize), sum);
            && h.din == whole.full.din0 + whole.Sent() + block.Words()
            && tag[..4] == FinalOf(whole.lastCore).Out(whole.FinalChain(), block).Words()
    ensures
      var bytes := TotalBytes(h.init.dataUnit, m.sizes);
      whole.lastCore.mode.npblb
      == if m.direction == Encryption && bytes % 16 != 0 then 16 * ((bytes + 15) / 16) - bytes else 0
  {
    ghost var input0, out0 := m.input[..], m.output[..];
    status, header, jobs := SumAndTag(h, m, tag);
    whole := RunIsOneJob(jobs, m.direction, h.init.dataUnit, m.sizes);
    LastCoreNumbers(whole.full.core, m.direction, TotalBytes(h.init.dataUnit, m.sizes), whole);
    if tag != m.output && Contiguous(m, h.init.dataUnit, inBase, outBase) {
      TakeAll(m.sizes);
      ghost var total, words, produced :=
        RunInOrder(jobs, m, h.init.dataUnit, input0, inBase, out0, m.output[..], outBase);
    }
  }
}
