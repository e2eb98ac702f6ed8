/** Without rounding, a run of calls produces what one pure definition says of the whole stream. */
module Streaming {
  import opened Basics
  import opened Pcm
  import opened Position
  import opened Resampler

  lemma {:induction false} MixIsExact(srcrate: nat, tarrate: nat, k: nat, p0: Sample, p1: Sample)
    requires 0 < tarrate
    ensures var r := srcrate * k % tarrate;
            Mix(Exact(srcrate, tarrate, k), p0, p1) == TruncDiv(r * p1 + (tarrate - r) * p0, tarrate)
  {
    var r := srcrate * k % tarrate;
    FractionIsExact(srcrate, tarrate, k);
    BlendAsQuotient(r, tarrate, p0, p1);
  }

  lemma {:induction false} FractionIsExact(srcrate: nat, tarrate: nat, k: nat)
    requires 0 < tarrate
    ensures var nk := Exact(srcrate, tarrate, k);
            nk - Trunc(nk) as real == (srcrate * k % tarrate) as real / tarrate as real
  {
    var a := srcrate * k;
    var q, r := a / tarrate, a % tarrate;
    ExactFloor(srcrate, tarrate, k);
    assert a == q * tarrate + r;
    QuotientSplits(q, r, tarrate);
  }

  lemma {:induction false} QuotientSplits(q: int, r: int, t: int)
    requires 0 < t
    ensures (q * t + r) as real / t as real == q as real + r as real / t as real
  {
    assert (q * t + r) as real == q as real * t as real + r as real;
  }

  lemma {:induction false} BlendAsQuotient(r: int, t: int, p0: Sample, p1: Sample)
    requires 0 < t
    ensures Blend(r as real / t as real, p0, p1) == TruncDiv(r * p1 + (t - r) * p0, t)
  {
    MeanAsQuotient(r, t, p0, p1);
    TruncOfQuotient(r * p1 + (t - r) * p0, t);
  }

  lemma {:induction false} MeanAsQuotient(r: int, t: int, p0: int, p1: int)
    requires 0 < t
    ensures Mean(r as real / t as real, p0 as real, p1 as real) == (r * p1 + (t - r) * p0) as real / t as real
  {
    var w := r as real / t as real;
    var v := w * p1 as real + (1.0 - w) * p0 as real;
    assert w * t as real == r as real;
    assert v * t as real == (w * t as real) * p1 as real + (t as real - w * t as real) * p0 as real;
    assert (r * p1 + (t - r) * p0) as real == r as real * p1 as real + (t as real - r as real) * p0 as real;
  }

  /** Output `k` of the stream `x`: the integer interpolation at position srcrate * k / tarrate. */
  function Ideal(srcrate: nat, tarrate: nat, x: seq<Sample>, k: nat): (y: Sample)
    requires 0 < tarrate && srcrate * k / tarrate + 1 < |x|
    ensures var q := srcrate * k / tarrate; x[q] <= y <= x[q + 1] || x[q + 1] <= y <= x[q]
  {
    var q, r := srcrate * k / tarrate, srcrate * k % tarrate;
    MixIsExact(srcrate, tarrate, k, x[q], x[q + 1]);
    ExactFloor(srcrate, tarrate, k);
    MixBetween(Exact(srcrate, tarrate, k), x[q], x[q + 1]);
    TruncDiv(r * x[q + 1] + (tarrate - r) * x[q], tarrate)
  }

  /** Every output the stream `x` allows. */
  function Batch(srcrate: nat, tarrate: nat, x: seq<Sample>): (y: seq<Sample>)
    requires 0 < srcrate && 0 < tarrate
    ensures |y| == Total(srcrate, tarrate, |x|)
  {
    seq(Total(srcrate, tarrate, |x|), k requires 0 <= k < Total(srcrate, tarrate, |x|) =>
      TotalIff(srcrate, tarrate, |x|, k);
      Ideal(srcrate, tarrate, x, k))
  }

  lemma {:induction false} BatchAt(srcrate: nat, tarrate: nat, x: seq<Sample>, k: nat)
    requires 0 < srcrate && 0 < tarrate && k < Total(srcrate, tarrate, |x|)
    ensures srcrate * k / tarrate + 1 < |x| && Batch(srcrate, tarrate, x)[k] == Ideal(srcrate, tarrate, x, k)
  {
    TotalIff(srcrate, tarrate, |x|, k);
  }

  lemma {:induction false} IdealGrows(srcrate: nat, tarrate: nat, x: seq<Sample>, chunk: seq<Sample>, k: nat)
    requires 0 < tarrate && srcrate * k / tarrate + 1 < |x|
    ensures Ideal(srcrate, tarrate, x, k) == Ideal(srcrate, tarrate, x + chunk, k)
  {
    var q := srcrate * k / tarrate;
    assert 0 <= q by { FloorDivIff(srcrate * k, tarrate, 0); }
    assert (x + chunk)[q] == x[q] && (x + chunk)[q + 1] == x[q + 1];
  }

  /** More input only adds outputs. */
  lemma {:induction false} BatchGrows(srcrate: nat, tarrate: nat, x: seq<Sample>, chunk: seq<Sample>)
    requires 0 < srcrate && 0 < tarrate
    ensures Batch(srcrate, tarrate, x) <= Batch(srcrate, tarrate, x + chunk)
  {
    TotalGrows(srcrate, tarrate, |x|, |chunk|);
    forall k | 0 <= k < Total(srcrate, tarrate, |x|)
      ensures Batch(srcrate, tarrate, x)[k] == Batch(srcrate, tarrate, x + chunk)[k]
    {
      BatchAt(srcrate, tarrate, x, k);
      BatchAt(srcrate, tarrate, x + chunk, k);
      IdealGrows(srcrate, tarrate, x, chunk, k);
    }
  }

  /** A state is in phase when its output counter is what its input counter owes. */
  predicate InPhase(srcrate: nat, tarrate: nat, st: State)
    requires 0 < srcrate && 0 < tarrate
  {
    |st.delay| == DELAY && st.outnum == Total(srcrate, tarrate, st.innum)
  }

  /** The first position of a call is at most one sample before the new chunk. */
  lemma {:induction false} InPhaseLooksBackOne(srcrate: nat, tarrate: nat, st: State)
    requires 0 < srcrate && 0 < tarrate && InPhase(srcrate, tarrate, st)
    ensures -1 <= srcrate * st.outnum / tarrate - st.innum
    ensures ExactClock(srcrate, tarrate).Sound() && Ready(ExactClock(srcrate, tarrate), st)
  {
    ExactClockIsSound(srcrate, tarrate);
    TotalIff(srcrate, tarrate, st.innum, st.outnum);
  }

  /** The exact number of outputs of one call. */
  lemma {:induction false} CallCount(srcrate: nat, tarrate: nat, st: State, chunk: seq<Sample>)
    requires 0 < srcrate && 0 < tarrate && InPhase(srcrate, tarrate, st)
    ensures var c := ExactClock(srcrate, tarrate);
            c.Sound() && Ready(c, st)
            && |Emit(c, st.delay, chunk, st.innum, st.outnum)|
               == Total(srcrate, tarrate, st.innum + |chunk|) - st.outnum
  {
    var c := ExactClock(srcrate, tarrate);
    InPhaseLooksBackOne(srcrate, tarrate, st);
    ExactClockIsSound(srcrate, tarrate);
    var out := Emit(c, st.delay, chunk, st.innum, st.outnum);
    var k := st.outnum + |out|;
    TotalIff(srcrate, tarrate, st.innum + |chunk|, k);
    if k > st.outnum {
      assert c.Pos(k - 1) + 1 < st.innum + |chunk|;
      TotalIff(srcrate, tarrate, st.innum + |chunk|, k - 1);
    } else {
      TotalGrows(srcrate, tarrate, st.innum, |chunk|);
    }
  }

  lemma {:induction false} TotalGrows(srcrate: nat, tarrate: nat, n: nat, more: nat)
    requires 0 < srcrate && 0 < tarrate
    ensures Total(srcrate, tarrate, n) <= Total(srcrate, tarrate, n + more)
    ensures Total(srcrate, tarrate, n + more) - Total(srcrate, tarrate, n) <= CeilDiv(tarrate * more, srcrate)
  {
    var a, b := Total(srcrate, tarrate, n), Total(srcrate, tarrate, n + more);
    if 0 < a {
      TotalIff(srcrate, tarrate, n, a - 1);
      TotalIff(srcrate, tarrate, n + more, a - 1);
    }
    var d := CeilDiv(tarrate * more, srcrate);
    CeilDivIff(tarrate * more, srcrate, d);
    assert tarrate * more <= d * srcrate;
    if n == 0 {
      if 0 < b {
        CeilDivIff(tarrate * (more - 1), srcrate, d);
        assert tarrate * (more - 1) <= tarrate * more;
      } else {
        CeilDivIff(tarrate * more, srcrate, -1);
      }
    } else {
      CeilDivIff(tarrate * (n - 1), srcrate, a);
      CeilDivIff(tarrate * (n + more - 1), srcrate, a + d);
      assert tarrate * (n + more - 1) == tarrate * (n - 1) + tarrate * more;
      assert (a + d) * srcrate == a * srcrate + d * srcrate;
    }
  }

  /** One second of source owes one second of outputs. */
  lemma {:induction false} TotalOfSecond(srcrate: nat, tarrate: nat, n: nat)
    requires 0 < srcrate && 0 < tarrate
    ensures 0 < n ==> Total(srcrate, tarrate, n + srcrate) == Total(srcrate, tarrate, n) + tarrate
    ensures Total(srcrate, tarrate, srcrate) <= tarrate
  {
    if 0 < n {
      var a, t: int := tarrate * (n - 1), tarrate;
      DivShift(-a, srcrate, -t);
      assert t * (n + srcrate - 1) == a + t * srcrate;
      assert -a + -t * srcrate == -(a + t * srcrate);
    }
    CeilDivIff(tarrate * (srcrate - 1), srcrate, tarrate);
    assert tarrate * (srcrate - 1) <= tarrate * srcrate;
  }

  /** Wrapping the counters keeps the phase. */
  lemma {:induction false} WrapKeepsPhase(srcrate: nat, tarrate: nat, st: State)
    requires 0 < srcrate && 0 < tarrate && InPhase(srcrate, tarrate, st)
    ensures InPhase(srcrate, tarrate, Wrap(ExactClock(srcrate, tarrate), st))
  {
    if srcrate <= st.innum && tarrate <= st.outnum {
      TotalOfSecond(srcrate, tarrate, st.innum - srcrate);
    }
  }

  lemma {:induction false} AdvanceKeepsPhase(srcrate: nat, tarrate: nat, st: State, chunk: seq<Sample>)
    requires 0 < srcrate && 0 < tarrate && InPhase(srcrate, tarrate, st) && DELAY <= |chunk|
    ensures var c := ExactClock(srcrate, tarrate);
            c.Sound() && Ready(c, st) && InPhase(srcrate, tarrate, Advance(c, st, chunk).0)
  {
    CallCount(srcrate, tarrate, st, chunk);
    var n := st.innum + |chunk|;
    WrapKeepsPhase(srcrate, tarrate, State(Newest(chunk), n, Total(srcrate, tarrate, n)));
  }

  /** Chunks of at most a second keep both counters within a second. */
  lemma {:induction false} AdvanceKeepsBounds(srcrate: nat, tarrate: nat, st: State, chunk: seq<Sample>)
    requires 0 < srcrate && 0 < tarrate && InPhase(srcrate, tarrate, st) && DELAY <= |chunk| <= srcrate
    requires st.innum <= srcrate && (st.innum < srcrate || st.outnum < tarrate)
    ensures var c := ExactClock(srcrate, tarrate);
            c.Sound() && Ready(c, st)
            && var st' := Advance(c, st, chunk).0;
               st'.innum <= srcrate && st'.outnum <= tarrate && (st'.innum < srcrate || st'.outnum < tarrate)
  {
    CallCount(srcrate, tarrate, st, chunk);
    AdvanceKeepsPhase(srcrate, tarrate, st, chunk);
    var st' := Advance(ExactClock(srcrate, tarrate), st, chunk).0;
    var n := st.innum + |chunk|;
    TotalOfSecond(srcrate, tarrate, 0);
    if srcrate < n {
      TotalOfSecond(srcrate, tarrate, n - srcrate);
    }
    TotalGrows(srcrate, tarrate, st'.innum, srcrate - st'.innum);
  }

  /** The state after stream `x`, with `w` wraps behind it. */
  predicate Tracks(srcrate: nat, tarrate: nat, st: State, x: seq<Sample>, w: nat)
    requires 0 < srcrate && 0 < tarrate
  {
    && InPhase(srcrate, tarrate, st)
    && st.innum + w * srcrate == |x|
    && st.outnum + w * tarrate == Total(srcrate, tarrate, |x|)
    && (x == [] || (DELAY <= |x| && st.delay == Newest(x)))
  }

  /** One call continues the batch where the stream so far left it. */
  lemma {:induction false} EmitIsBatch(srcrate: nat, tarrate: nat, st: State, x: seq<Sample>, w: nat,
      chunk: seq<Sample>)
    requires 0 < srcrate && 0 < tarrate && Tracks(srcrate, tarrate, st, x, w)
    ensures var c := ExactClock(srcrate, tarrate);
            c.Sound() && Ready(c, st)
            && Total(srcrate, tarrate, |x|) <= Total(srcrate, tarrate, |x + chunk|)
            && Emit(c, st.delay, chunk, st.innum, st.outnum)
               == Batch(srcrate, tarrate, x + chunk)[Total(srcrate, tarrate, |x|)..]
  {
    var c, y := ExactClock(srcrate, tarrate), x + chunk;
    InPhaseLooksBackOne(srcrate, tarrate, st);
    TotalGrows(srcrate, tarrate, |x|, |chunk|);
    EmitLengthInStream(srcrate, tarrate, st, x, w, chunk);
    var out, m := Emit(c, st.delay, chunk, st.innum, st.outnum), Total(srcrate, tarrate, |x|);
    forall j | 0 <= j < |out|
      ensures out[j] == Batch(srcrate, tarrate, y)[m + j]
    {
      assert c.Pos(st.outnum + j) + 1 < st.innum + |chunk|;
      assert st.outnum + j + w * tarrate == m + j;
      OutputIsBatched(srcrate, tarrate, st, x, w, chunk, st.outnum + j);
    }
  }

  lemma {:induction false} EmitLengthInStream(srcrate: nat, tarrate: nat, st: State, x: seq<Sample>, w: nat,
      chunk: seq<Sample>)
    requires 0 < srcrate && 0 < tarrate && Tracks(srcrate, tarrate, st, x, w)
    ensures var c := ExactClock(srcrate, tarrate);
            c.Sound() && Ready(c, st)
            && Total(srcrate, tarrate, |x|) + |Emit(c, st.delay, chunk, st.innum, st.outnum)|
               == Total(srcrate, tarrate, |x + chunk|)
  {
    var c, m := ExactClock(srcrate, tarrate), Total(srcrate, tarrate, |x|);
    InPhaseLooksBackOne(srcrate, tarrate, st);
    ExactClockIsSound(srcrate, tarrate);
    TotalGrows(srcrate, tarrate, |x|, |chunk|);
    var out := Emit(c, st.delay, chunk, st.innum, st.outnum);
    var k := st.outnum + |out|;
    PositionShift(srcrate, tarrate, k, w);
    TotalIff(srcrate, tarrate, |x + chunk|, m + |out|);
    if 0 < |out| {
      assert c.Pos(k - 1) + 1 < st.innum + |chunk|;
      PositionShift(srcrate, tarrate, k - 1, w);
      TotalIff(srcrate, tarrate, |x + chunk|, m + |out| - 1);
    }
  }

  lemma {:induction false} OutputIsBatched(srcrate: nat, tarrate: nat, st: State, x: seq<Sample>, w: nat,
      chunk: seq<Sample>, k: nat)
    requires 0 < srcrate && 0 < tarrate && Tracks(srcrate, tarrate, st, x, w) && st.outnum <= k
    requires ExactClock(srcrate, tarrate).Pos(k) + 1 < st.innum + |chunk|
    ensures -1 <= ExactClock(srcrate, tarrate).Pos(k) - st.innum
    ensures var K := k + w * tarrate;
            K < Total(srcrate, tarrate, |x + chunk|)
            && Output(ExactClock(srcrate, tarrate), st.delay, chunk, st.innum, k)
               == Batch(srcrate, tarrate, x + chunk)[K]
  {
    var y, K := x + chunk, k + w * tarrate;
    var q := TapsAreInStream(srcrate, tarrate, st, x, w, chunk, k);
    EmittedIsIdeal(srcrate, tarrate, y, k, w, q);
    TotalIff(srcrate, tarrate, |y|, K);
    BatchAt(srcrate, tarrate, y, K);
  }

  /** The two samples an output mixes are the stream's, at the position of the stream's numbering. */
  lemma {:induction false} TapsAreInStream(srcrate: nat, tarrate: nat, st: State, x: seq<Sample>, w: nat,
      chunk: seq<Sample>, k: nat)
      returns (q: nat)
    requires 0 < srcrate && 0 < tarrate && Tracks(srcrate, tarrate, st, x, w) && st.outnum <= k
    requires ExactClock(srcrate, tarrate).Pos(k) + 1 < st.innum + |chunk|
    ensures var n := ExactClock(srcrate, tarrate).Pos(k) - st.innum;
            && -1 <= n && q + 1 < |x + chunk| && q == srcrate * (k + w * tarrate) / tarrate
            && Tap(st.delay, chunk, n) == (x + chunk)[q] && Tap(st.delay, chunk, n + 1) == (x + chunk)[q + 1]
  {
    var c, y := ExactClock(srcrate, tarrate), x + chunk;
    InPhaseLooksBackOne(srcrate, tarrate, st);
    ExactClockIsSound(srcrate, tarrate);
    c.PosMonotone(st.outnum, k);
    PositionShift(srcrate, tarrate, k, w);
    q := c.Pos(k) - st.innum + |x|;
  }

  lemma {:induction false} EmittedIsIdeal(srcrate: nat, tarrate: nat, y: seq<Sample>, k: nat, w: nat, q: nat)
    requires 0 < srcrate && 0 < tarrate && q + 1 < |y| && q == srcrate * (k + w * tarrate) / tarrate
    ensures Saturate(Mix(Exact(srcrate, tarrate, k), y[q], y[q + 1])) == Ideal(srcrate, tarrate, y, k + w * tarrate)
  {
    PositionShift(srcrate, tarrate, k, w);
    MixIsExact(srcrate, tarrate, k, y[q], y[q + 1]);
  }

  lemma {:induction false} PositionShift(srcrate: nat, tarrate: nat, k: nat, w: nat)
    requires 0 < tarrate
    ensures srcrate * (k + w * tarrate) / tarrate == srcrate * k / tarrate + w * srcrate
    ensures srcrate * (k + w * tarrate) % tarrate == srcrate * k % tarrate
  {
    assert srcrate * (k + w * tarrate) == srcrate * k + (w * srcrate) * tarrate;
    DivShift(srcrate * k, tarrate, w * srcrate);
  }

  lemma {:induction false} AdvanceTracks(srcrate: nat, tarrate: nat, st: State, x: seq<Sample>, w: nat,
      chunk: seq<Sample>)
      returns (w': nat)
    requires 0 < srcrate && 0 < tarrate && Tracks(srcrate, tarrate, st, x, w) && DELAY <= |chunk|
    ensures var c := ExactClock(srcrate, tarrate);
            c.Sound() && Ready(c, st)
            && Tracks(srcrate, tarrate, Advance(c, st, chunk).0, x + chunk, w')
            && Batch(srcrate, tarrate, x) + Advance(c, st, chunk).1 == Batch(srcrate, tarrate, x + chunk)
  {
    var c, y := ExactClock(srcrate, tarrate), x + chunk;
    AdvanceKeepsPhase(srcrate, tarrate, st, chunk);
    BatchGrows(srcrate, tarrate, x, chunk);
    EmitIsBatch(srcrate, tarrate, st, x, w, chunk);
    var out := Emit(c, st.delay, chunk, st.innum, st.outnum);
    PrefixThenRest(Batch(srcrate, tarrate, x), Batch(srcrate, tarrate, y));
    var raw := State(Newest(chunk), st.innum + |chunk|, st.outnum + |out|);
    assert Newest(chunk) == Newest(y);
    w' := WrapTallies(c, raw, |y|, Total(srcrate, tarrate, |y|), w);
  }

  lemma {:induction false} PrefixThenRest<T>(a: seq<T>, b: seq<T>)
    requires a <= b
    ensures a + b[|a|..] == b
  {
  }

  /** Streaming equals batch: over any chunking of the stream the run produces exactly the batch of
      the whole stream, and its counters are the stream's totals less whole seconds. */
  lemma {:induction false} StreamingIsBatch(srcrate: nat, tarrate: nat, chunks: seq<seq<Sample>>) returns (w: nat)
    requires 0 < srcrate && 0 < tarrate && Chunked(chunks)
    ensures var c := ExactClock(srcrate, tarrate);
            c.Sound()
            && Run(c, chunks).1 == Batch(srcrate, tarrate, Flatten(chunks))
            && Tracks(srcrate, tarrate, Run(c, chunks).0, Flatten(chunks), w)
    decreases |chunks|
  {
    var c := ExactClock(srcrate, tarrate);
    ExactClockIsSound(srcrate, tarrate);
    if chunks == [] {
      w := 0;
    } else {
      var last := |chunks| - 1;
      w := StreamingIsBatch(srcrate, tarrate, chunks[..last]);
      w := AdvanceTracks(srcrate, tarrate, Run(c, chunks[..last]).0, Flatten(chunks[..last]), w, chunks[last]);
    }
  }

  /** However the stream is cut, the run yields max(0, ceil(tarrate * (n - 1) / srcrate)) outputs. */
  lemma {:induction false} OutputCount(srcrate: nat, tarrate: nat, chunks: seq<seq<Sample>>)
    requires 0 < srcrate && 0 < tarrate && Chunked(chunks)
    ensures ExactClock(srcrate, tarrate).Sound()
    ensures |Run(ExactClock(srcrate, tarrate), chunks).1| ==
            var n := |Flatten(chunks)|;
            if n == 0 then 0 else CeilDiv(tarrate * (n - 1), srcrate)
  {
    hide Run, Batch, Flatten, Tracks;
    var _ := StreamingIsBatch(srcrate, tarrate, chunks);
  }

  /** One call never produces more than its own share of outputs, rounded up. */
  lemma {:induction false} CallBound(srcrate: nat, tarrate: nat, st: State, chunk: seq<Sample>)
    requires 0 < srcrate && 0 < tarrate && InPhase(srcrate, tarrate, st)
    ensures var c := ExactClock(srcrate, tarrate);
            c.Sound() && Ready(c, st)
            && |Emit(c, st.delay, chunk, st.innum, st.outnum)| <= CeilDiv(tarrate * |chunk|, srcrate)
  {
    CallCount(srcrate, tarrate, st, chunk);
    TotalGrows(srcrate, tarrate, st.innum, |chunk|);
  }

  /** That bound is attained: after a first chunk of six seconds and one sample, every call meets it. */
  lemma {:induction false} CallBoundIsAttained(srcrate: nat, tarrate: nat, first: seq<Sample>, chunk: seq<Sample>)
    requires 0 < srcrate && 0 < tarrate && |first| == 6 * srcrate + 1
    ensures Chunked([first]) && ExactClock(srcrate, tarrate).Sound()
    ensures var c := ExactClock(srcrate, tarrate);
            var st := Run(c, [first]).0;
            Owed(c, st.innum + |chunk|, st.outnum) == CeilDiv(tarrate * |chunk|, srcrate)
  {
    hide *;
    OwedAfterFirst(srcrate, tarrate, first, chunk);
    SharePastSeconds(srcrate, tarrate, |first|, |chunk|);
  }

  lemma {:induction false} OwedAfterFirst(srcrate: nat, tarrate: nat, first: seq<Sample>, chunk: seq<Sample>)
    requires 0 < srcrate && 0 < tarrate && 6 <= |first|
    ensures Chunked([first]) && ExactClock(srcrate, tarrate).Sound()
    ensures var c := ExactClock(srcrate, tarrate);
            var st := Run(c, [first]).0;
            Owed(c, st.innum + |chunk|, st.outnum)
            == Total(srcrate, tarrate, |first| + |chunk|) - Total(srcrate, tarrate, |first|)
  {
    hide Run, Batch, Flatten, Total, CeilDiv, Clock.Sound, Owed, Tracks, Chunked;
    FlattenOne(first);
    ChunkedOne(first);
    var w := StreamingIsBatch(srcrate, tarrate, [first]);
    OwedInStream(srcrate, tarrate, Run(ExactClock(srcrate, tarrate), [first]).0, first, w, chunk);
  }

  lemma {:induction false} SharePastSeconds(srcrate: nat, tarrate: nat, n: nat, more: nat)
    requires 0 < srcrate && 0 < tarrate && n == 6 * srcrate + 1
    ensures Total(srcrate, tarrate, n + more) - Total(srcrate, tarrate, n) == CeilDiv(tarrate * more, srcrate)
  {
    hide Total, CeilDiv;
    TotalAfterSeconds(srcrate, tarrate, 6, 0);
    TotalAfterSeconds(srcrate, tarrate, 6, more);
    NoneOfNothing(tarrate, srcrate);
  }

  lemma {:induction false} OwedInStream(srcrate: nat, tarrate: nat, st: State, x: seq<Sample>, w: nat,
      chunk: seq<Sample>)
    requires 0 < srcrate && 0 < tarrate && Tracks(srcrate, tarrate, st, x, w)
    ensures var c := ExactClock(srcrate, tarrate);
            c.Sound()
            && Owed(c, st.innum + |chunk|, st.outnum)
               == Total(srcrate, tarrate, |x| + |chunk|) - Total(srcrate, tarrate, |x|)
  {
    hide Total, Owed, Clock.Sound, Tracks;
    EmitLengthInStream(srcrate, tarrate, st, x, w, chunk);
  }

  lemma {:induction false} ChunkedOne(chunk: seq<Sample>)
    requires DELAY <= |chunk|
    ensures Chunked([chunk])
  {
  }

  lemma {:induction false} FlattenOne(chunk: seq<Sample>)
    ensures Flatten([chunk]) == chunk
  {
    assert [chunk][..0] == [];
  }

  lemma {:induction false} NoneOfNothing(a: nat, b: nat)
    requires 0 < b
    ensures CeilDiv(a * 0, b) == 0
  {
  }

  lemma {:induction false} TotalAfterSeconds(srcrate: nat, tarrate: nat, w: nat, n: nat)
    requires 0 < srcrate && 0 < tarrate
    ensures Total(srcrate, tarrate, w * srcrate + 1 + n) == w * tarrate + CeilDiv(tarrate * n, srcrate)
  {
    hide CeilDiv;
    CeilDivShift(tarrate * n, srcrate, w * tarrate);
    Regroup(tarrate, srcrate, w, n);
  }

  lemma {:induction false} CeilDivShift(a: int, b: int, w: int)
    requires 0 < b
    ensures CeilDiv(a + w * b, b) == CeilDiv(a, b) + w
  {
    DivShift(-a, b, -w);
    assert -a + -w * b == -(a + w * b);
  }

  lemma {:induction false} Regroup(t: int, s: int, w: int, n: int)
    ensures t * (w * s + n) == t * n + w * t * s
  {
  }

  /** In every reachable state, every position the next call asks for lies at -1 or later relative to
      the new chunk: of the six delay slots only the newest is read, and a second neighbour never
      comes from the delay line. */
  lemma {:induction false} LooksBackAtMostOne(srcrate: nat, tarrate: nat, chunks: seq<seq<Sample>>, k: nat)
    requires 0 < srcrate && 0 < tarrate && Chunked(chunks)
    ensures ExactClock(srcrate, tarrate).Sound()
    ensures var c, st := ExactClock(srcrate, tarrate), Run(ExactClock(srcrate, tarrate), chunks).0;
            st.outnum <= k ==> -1 <= c.Pos(k) - st.innum
  {
    var c := ExactClock(srcrate, tarrate);
    ExactClockIsSound(srcrate, tarrate);
    var w := StreamingIsBatch(srcrate, tarrate, chunks);
    var st := Run(c, chunks).0;
    InPhaseLooksBackOne(srcrate, tarrate, st);
    if st.outnum <= k {
      c.PosMonotone(st.outnum, k);
    }
  }

  /** Chunks of at most one second keep both counters within one second, over any run, and no call leaves
      a whole second in both. */
  lemma {:induction false} CountersStayBounded(srcrate: nat, tarrate: nat, chunks: seq<seq<Sample>>)
    requires 0 < srcrate && 0 < tarrate && Chunked(chunks)
    requires forall i :: 0 <= i < |chunks| ==> |chunks[i]| <= srcrate
    ensures ExactClock(srcrate, tarrate).Sound()
    ensures var st := Run(ExactClock(srcrate, tarrate), chunks).0;
            && st.innum <= srcrate && st.outnum <= tarrate
            && (st.innum < srcrate || st.outnum < tarrate)
    decreases |chunks|
  {
    var c := ExactClock(srcrate, tarrate);
    ExactClockIsSound(srcrate, tarrate);
    if chunks != [] {
      var last := |chunks| - 1;
      CountersStayBounded(srcrate, tarrate, chunks[..last]);
      var _ := StreamingIsBatch(srcrate, tarrate, chunks[..last]);
      AdvanceKeepsBounds(srcrate, tarrate, Run(c, chunks[..last]).0, chunks[last]);
    }
  }

  /** A wrap shifts a relative position by nothing: same index into the chunk, same weight. */
  lemma {:induction false} WrapIsInvisible(srcrate: nat, tarrate: nat, st: State, j: nat)
    requires 0 < srcrate && 0 < tarrate
    ensures var c := ExactClock(srcrate, tarrate);
            var st' := Wrap(c, st);
            && c.Pos(st'.outnum + j) - st'.innum == c.Pos(st.outnum + j) - st.innum
            && c.scale(st'.outnum + j) - c.Pos(st'.outnum + j) as real
               == c.scale(st.outnum + j) - c.Pos(st.outnum + j) as real
  {
    var c := ExactClock(srcrate, tarrate);
    ExactClockIsSound(srcrate, tarrate);
    if srcrate <= st.innum && tarrate <= st.outnum {
      var k := st.outnum - tarrate + j;
      PositionShift(srcrate, tarrate, k, 1);
      FractionIsExact(srcrate, tarrate, k);
      FractionIsExact(srcrate, tarrate, k + tarrate);
    }
  }

  /** Upsampling by a whole factor puts every source sample, bar the last, in the output. */
  lemma {:induction false} UpsamplingKeeps(rate: nat, m: nat, x: seq<Sample>, j: nat)
    requires 0 < rate && 0 < m && j + 1 < |x|
    ensures 0 < m * rate && |Batch(rate, m * rate, x)| == m * (|x| - 1)
    ensures m * j < m * (|x| - 1) && Batch(rate, m * rate, x)[m * j] == x[j]
  {
    UpsampledLength(rate, m, x);
    UpsampledPosition(rate, m, j);
    TimesLess(m, j, |x| - 1);
    BatchAt(rate, m * rate, x, m * j);
    IdealOnSample(rate, m * rate, x, m * j, j);
  }

  lemma {:induction false} UpsampledLength(rate: nat, m: nat, x: seq<Sample>)
    requires 0 < rate && 0 < m && x != []
    ensures 0 < m * rate && Total(rate, m * rate, |x|) == m * (|x| - 1)
  {
    assert 0 < m * rate;
    var n := |x| - 1;
    TimesOverExact(m * n, rate);
    assert m * rate * n == m * n * rate;
  }

  lemma {:induction false} UpsampledPosition(rate: nat, m: nat, j: nat)
    requires 0 < rate && 0 < m
    ensures 0 < m * rate && rate * (m * j) / (m * rate) == j && rate * (m * j) % (m * rate) == 0
  {
    var t := m * rate;
    assert 0 < t;
    assert rate * (m * j) == 0 + j * t;
    DivShift(0, t, j);
  }

  /** An output that falls on a source sample is that sample. */
  lemma {:induction false} IdealOnSample(srcrate: nat, tarrate: nat, x: seq<Sample>, k: nat, j: nat)
    requires 0 < tarrate && srcrate * k / tarrate == j && srcrate * k % tarrate == 0 && j + 1 < |x|
    ensures Ideal(srcrate, tarrate, x, k) == x[j]
  {
    assert 0 * x[j + 1] + (tarrate - 0) * x[j] == x[j] * tarrate;
    TruncTimes(x[j], tarrate);
  }

  lemma {:induction false} TimesOverExact(a: int, b: int)
    requires 0 < b
    ensures CeilDiv(a * b, b) == a
  {
    CeilDivIff(a * b, b, a);
    CeilDivIff(a * b, b, a - 1);
    assert (a - 1) * b == a * b - b;
  }

  lemma {:induction false} TruncTimes(a: int, b: int)
    requires 0 < b
    ensures TruncDiv(a * b, b) == a
  {
    if 0 <= a {
      assert 0 <= a * b;
      DivShift(0, b, a);
    } else {
      assert a * b < 0;
      assert -(a * b) == 0 + (-a) * b;
      DivShift(0, b, -a);
    }
  }

  /** Downsampling by a whole factor picks every m-th source sample. */
  lemma {:induction false} DownsamplingPicks(rate: nat, m: nat, y: seq<Sample>, k: nat)
    requires 0 < rate && 0 < m && m * k + 1 < |y|
    ensures 0 < m * rate && k < |Batch(m * rate, rate, y)| && Batch(m * rate, rate, y)[k] == y[m * k]
  {
    DownsampledPosition(rate, m, k);
    TotalIff(m * rate, rate, |y|, k);
    BatchAt(m * rate, rate, y, k);
    IdealOnSample(m * rate, rate, y, k, m * k);
  }

  lemma {:induction false} DownsampledPosition(rate: nat, m: nat, k: nat)
    requires 0 < rate && 0 < m
    ensures 0 < m * rate && m * rate * k / rate == m * k && m * rate * k % rate == 0
  {
    assert 0 < m * rate;
    assert m * rate * k == 0 + (m * k) * rate;
    DivShift(0, rate, m * k);
  }

  /** Up by m and down by m again gives the stream back, less its last sample. */
  lemma {:induction false} RoundTrip(rate: nat, m: nat, x: seq<Sample>)
    requires 0 < rate && 2 <= m && x != []
    ensures 0 < m * rate && Batch(m * rate, rate, Batch(rate, m * rate, x)) == x[..|x| - 1]
  {
    assert 0 < m * rate;
    var y, n := Batch(rate, m * rate, x), |x| - 1;
    var z := Batch(m * rate, rate, y);
    if 0 < n {
      UpsamplingKeeps(rate, m, x, 0);
      DownsampledPosition(rate, m, n);
      TotalIff(m * rate, rate, |y|, n);
      TimesLess(m, n - 1, n);
      DownsamplingPicks(rate, m, y, n - 1);
      forall k | 0 <= k < n
        ensures k < |z| && z[k] == x[k]
      {
        TimesLess(m, k, n);
        DownsamplingPicks(rate, m, y, k);
        UpsamplingKeeps(rate, m, x, k);
      }
    }
  }

  lemma {:induction false} TimesLess(m: nat, k: nat, n: nat)
    requires 0 < m
    ensures m * k < m * n <==> k < n
    ensures 2 <= m ==> (m * k + 1 < m * n <==> k < n)
  {
    if k < n {
      assert m * (k + 1) <= m * n;
    } else {
      assert m * n <= m * k;
    }
  }

  /** The same for streams: any chunking up, then any chunking of the result down. */
  lemma {:induction false} StreamedRoundTrip(rate: nat, m: nat, chunks: seq<seq<Sample>>, again: seq<seq<Sample>>)
    requires 0 < rate && 2 <= m && Chunked(chunks) && Chunked(again) && chunks != []
    requires ExactClock(rate, m * rate).Sound()
    requires Flatten(again) == Run(ExactClock(rate, m * rate), chunks).1
    ensures 0 < m * rate && ExactClock(m * rate, rate).Sound()
    ensures Run(ExactClock(m * rate, rate), again).1 == Flatten(chunks)[..|Flatten(chunks)| - 1]
  {
    assert 0 < m * rate;
    var _ := StreamingIsBatch(rate, m * rate, chunks);
    var _ := StreamingIsBatch(m * rate, rate, again);
    RoundTrip(rate, m, Flatten(chunks));
  }
}
