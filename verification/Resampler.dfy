/** One call of the converter as a function of its state, and what a run of calls keeps. */
module Resampler {
  import opened Basics
  import opened Pcm
  import opened Position

  const DELAY: int := 6

  /** The rates together with the machine's positions; `slack` bounds the rounding of `scale`. */
  datatype Clock = Clock(srcrate: nat, tarrate: nat, scale: Scale, slack: real) {
    ghost predicate Sound() {
      && 0 < srcrate && 0 < tarrate && 0.0 <= slack
      && Tolerant(scale, srcrate, tarrate, slack)
    }

    function Pos(k: nat): int {
      Trunc(scale(k))
    }

    /** An output index past which every position lies beyond source sample `n`. */
    function Horizon(n: nat): int {
      tarrate * (n + Trunc(slack) + 1)
    }

    lemma {:induction false} HasRates()
      requires Sound()
      ensures 0 < srcrate && 0 < tarrate && 0.0 <= slack
    {
    }

    lemma {:induction false} PosMonotone(j: nat, k: nat)
      requires Sound() && j <= k
      ensures 0 <= Pos(j) <= Pos(k)
    {
      assert 0.0 <= scale(j) <= scale(k);
    }

    lemma {:induction false} PastHorizon(n: nat, k: nat)
      requires Sound() && Horizon(n) <= k
      ensures n <= Pos(k)
    {
      var m := n + Trunc(slack) + 1;
      ExactAtLeast(srcrate, tarrate, k, m);
      assert Exact(srcrate, tarrate, k) - slack <= scale(k);
    }
  }

  /** Without rounding. */
  function ExactClock(srcrate: nat, tarrate: nat): Clock
    requires 0 < tarrate
  {
    Clock(srcrate, tarrate, ExactScale(srcrate, tarrate), 0.0)
  }

  lemma {:induction false} ExactClockIsSound(srcrate: nat, tarrate: nat)
    requires 0 < srcrate && 0 < tarrate
    ensures ExactClock(srcrate, tarrate).Sound()
    ensures forall k: nat :: ExactClock(srcrate, tarrate).Pos(k) == srcrate * k / tarrate
  {
    ExactIsTolerant(srcrate, tarrate, 0.0);
    forall k: nat
      ensures ExactClock(srcrate, tarrate).Pos(k) == srcrate * k / tarrate
    {
      ExactFloor(srcrate, tarrate, k);
    }
  }

  /** The weighted mean of two neighbours, weighted by the fraction of the position `nk`. */
  function Mix(nk: real, p0: Sample, p1: Sample): int {
    Blend(nk - Trunc(nk) as real, p0, p1)
  }

  function Blend(w0: real, p0: Sample, p1: Sample): int {
    Trunc(Mean(w0, p0 as real, p1 as real))
  }

  function Mean(w0: real, p0: real, p1: real): real {
    var w1 := 1.0 - w0;
    w0 * p1 + w1 * p0
  }

  /** The mean never overshoots its neighbours, so saturating it changes nothing. */
  lemma {:induction false} MixBetween(nk: real, p0: Sample, p1: Sample)
    requires 0.0 <= nk
    ensures p0 <= Mix(nk, p0, p1) <= p1 || p1 <= Mix(nk, p0, p1) <= p0
  {
    MeanBetween(nk - Trunc(nk) as real, p0 as real, p1 as real);
  }

  lemma {:induction false} MeanBetween(w0: real, p0: real, p1: real)
    requires 0.0 <= w0 <= 1.0
    ensures p0 <= Mean(w0, p0, p1) <= p1 || p1 <= Mean(w0, p0, p1) <= p0
  {
    var u, v := w0 * (p1 - p0), (1.0 - w0) * (p0 - p1);
    assert Mean(w0, p0, p1) == p0 + u == p1 + v;
    if p0 <= p1 {
      ProductNonNegative(w0, p1 - p0);
      ProductNonNegative(1.0 - w0, p1 - p0);
      assert v == -((1.0 - w0) * (p1 - p0));
    } else {
      ProductNonNegative(w0, p0 - p1);
      ProductNonNegative(1.0 - w0, p0 - p1);
      assert u == -(w0 * (p0 - p1));
    }
  }

  /** Sample `n` of the new chunk; a negative `n` reaches back into the delay line. */
  function Tap(delay: seq<Sample>, chunk: seq<Sample>, n: int): Sample
    requires |delay| == DELAY && -DELAY <= n < |chunk|
  {
    if n < 0 then delay[DELAY + n] else chunk[n]
  }

  /** How many outputs, from number `k` on, lie wholly within the first `n` source samples. */
  ghost function Owed(c: Clock, n: nat, k: nat): (count: nat)
    requires c.Sound()
    ensures n <= c.Pos(k + count) + 1
    ensures forall j :: k <= j < k + count ==> c.Pos(j) + 1 < n
    decreases c.Horizon(n) - k
  {
    if n <= c.Pos(k) + 1 then 0 else
      assert k < c.Horizon(n) by {
        if c.Horizon(n) <= k { c.PastHorizon(n, k); }
      }
      1 + Owed(c, n, k + 1)
  }

  /** Output `k`, for a chunk that starts at source sample `innum`. */
  ghost function Output(c: Clock, delay: seq<Sample>, chunk: seq<Sample>, innum: nat, k: nat): Sample
    requires |delay| == DELAY && -DELAY <= c.Pos(k) - innum && c.Pos(k) + 1 < innum + |chunk|
  {
    var n := c.Pos(k) - innum;
    Saturate(Mix(c.scale(k), Tap(delay, chunk, n), Tap(delay, chunk, n + 1)))
  }

  /** What one call produces: outputs from number `k` on, until one needs a sample not yet there. */
  ghost function Emit(c: Clock, delay: seq<Sample>, chunk: seq<Sample>, innum: nat, k: nat): (out: seq<Sample>)
    requires c.Sound() && |delay| == DELAY && -DELAY <= c.Pos(k) - innum
    ensures |out| == Owed(c, innum + |chunk|, k)
  {
    seq<Sample>(Owed(c, innum + |chunk|, k), j requires 0 <= j < Owed(c, innum + |chunk|, k) =>
      c.PosMonotone(k, k + j);
      Output(c, delay, chunk, innum, k + j))
  }

  lemma {:induction false} EmitAt(c: Clock, delay: seq<Sample>, chunk: seq<Sample>, innum: nat, k: nat, j: nat)
    requires c.Sound() && |delay| == DELAY && -DELAY <= c.Pos(k) - innum
    requires j <= Owed(c, innum + |chunk|, k)
    ensures j < Owed(c, innum + |chunk|, k) <==> c.Pos(k + j) - innum + 1 < |chunk|
    ensures j < Owed(c, innum + |chunk|, k) ==>
              var n := c.Pos(k + j) - innum;
              && -DELAY <= n
              && Emit(c, delay, chunk, innum, k)[j]
                 == Saturate(Mix(c.scale(k + j), Tap(delay, chunk, n), Tap(delay, chunk, n + 1)))
  {
    c.PosMonotone(k, k + j);
    if j < Owed(c, innum + |chunk|, k) {
      EmittedIsOutput(c, delay, chunk, innum, k, j);
    }
  }

  lemma {:induction false} EmittedIsOutput(c: Clock, delay: seq<Sample>, chunk: seq<Sample>, innum: nat, k: nat, j: nat)
    requires c.Sound() && |delay| == DELAY && -DELAY <= c.Pos(k) - innum
    requires j < Owed(c, innum + |chunk|, k)
    ensures -DELAY <= c.Pos(k + j) - innum && c.Pos(k + j) + 1 < innum + |chunk|
    ensures Emit(c, delay, chunk, innum, k)[j] == Output(c, delay, chunk, innum, k + j)
  {
    hide Output, Tolerant, Owed;
    c.PosMonotone(k, k + j);
  }

  /** The converter's state between calls: the delay line and the two running counters. */
  datatype State = State(delay: seq<Sample>, innum: nat, outnum: nat)

  const START := State([0, 0, 0, 0, 0, 0], 0, 0)

  /** No index of the next call reaches further back than the delay line. */
  ghost predicate Ready(c: Clock, st: State) {
    |st.delay| == DELAY && -DELAY <= c.Pos(st.outnum) - st.innum
  }

  function Newest(chunk: seq<Sample>): (d: seq<Sample>)
    requires DELAY <= |chunk|
    ensures |d| == DELAY
  {
    chunk[|chunk| - DELAY..]
  }

  /** The counters lose one second of both streams once both have passed it. */
  function Wrap(c: Clock, st: State): State {
    if c.srcrate <= st.innum && c.tarrate <= st.outnum
    then st.(innum := st.innum - c.srcrate, outnum := st.outnum - c.tarrate)
    else st
  }

  ghost function Advance(c: Clock, st: State, chunk: seq<Sample>): (r: (State, seq<Sample>))
    requires c.Sound() && Ready(c, st) && DELAY <= |chunk|
  {
    var out := Emit(c, st.delay, chunk, st.innum, st.outnum);
    (Wrap(c, State(Newest(chunk), st.innum + |chunk|, st.outnum + |out|)), out)
  }

  /** Six slots suffice: a rounding slack of up to 5/2 never reaches past them, wrap or no wrap. */
  lemma {:induction false} SlackSuffices(c: Clock, st: State, chunk: seq<Sample>)
    requires c.Sound() && Ready(c, st) && DELAY <= |chunk| && c.slack <= 2.5
    ensures Ready(c, Advance(c, st, chunk).0)
  {
    var out := Emit(c, st.delay, chunk, st.innum, st.outnum);
    var i, k := st.innum + |chunk|, st.outnum + |out|;
    assert i - 1 <= c.Pos(k);
    if c.srcrate <= i && c.tarrate <= k {
      ExactShift(c.srcrate, c.tarrate, k - c.tarrate);
      assert c.scale(k - c.tarrate) >= c.scale(k) - c.srcrate as real - 5.0;
    }
  }

  lemma {:induction false} ExactShift(srcrate: nat, tarrate: nat, k: nat)
    requires 0 < tarrate
    ensures Exact(srcrate, tarrate, k + tarrate) == Exact(srcrate, tarrate, k) + srcrate as real
  {
    assert (srcrate * (k + tarrate)) as real == (srcrate * k) as real + srcrate as real * tarrate as real;
  }

  ghost predicate Chunked(chunks: seq<seq<Sample>>) {
    forall i :: 0 <= i < |chunks| ==> DELAY <= |chunks[i]|
  }

  /** A run of calls on one stream: the last state and everything produced. */
  ghost function Run(c: Clock, chunks: seq<seq<Sample>>): (r: (State, seq<Sample>))
    requires c.Sound() && c.slack <= 2.5 && Chunked(chunks)
    ensures Ready(c, r.0)
  {
    if chunks == [] then
      c.PosMonotone(0, 0);
      (START, [])
    else
      var last := |chunks| - 1;
      var (st, out) := Run(c, chunks[..last]);
      SlackSuffices(c, st, chunks[last]);
      var (st', more) := Advance(c, st, chunks[last]);
      (st', out + more)
  }

  /** In every reachable state every position the next call can ask for stays within the delay line. */
  lemma {:induction false} RunStaysInDelayLine(c: Clock, chunks: seq<seq<Sample>>, k: nat)
    requires c.Sound() && c.slack <= 2.5 && Chunked(chunks)
    ensures var st := Run(c, chunks).0; st.outnum <= k ==> -DELAY <= c.Pos(k) - st.innum
  {
    var st := Run(c, chunks).0;
    if st.outnum <= k {
      c.PosMonotone(st.outnum, k);
    }
  }

  /** The most outputs one call on `n` samples can produce: ceil(tarrate * (n + 2 * slack) / srcrate). */
  function Most(c: Clock, n: nat): (m: nat)
    requires 0 < c.srcrate && 0.0 <= c.slack
  {
    var x := Room(c, n) / c.srcrate as real;
    assert 0.0 <= x;
    Ceil(x)
  }

  function Room(c: Clock, n: nat): (x: real)
    requires 0.0 <= c.slack
    ensures 0.0 <= x
  {
    ProductNonNegative(c.tarrate as real, n as real + 2.0 * c.slack);
    c.tarrate as real * (n as real + 2.0 * c.slack)
  }

  lemma {:induction false} MostIff(c: Clock, n: nat, m: nat)
    requires 0 < c.srcrate && 0.0 <= c.slack
    ensures m < Most(c, n) <==> m as real * c.srcrate as real < Room(c, n)
  {
    var x, s := Room(c, n) / c.srcrate as real, c.srcrate as real;
    assert x * s == Room(c, n);
    ScaleIff(m as real, x, s);
  }

  /** Without rounding that is the call's own share, rounded up. */
  lemma {:induction false} MostIsCeiling(srcrate: nat, tarrate: nat, n: nat)
    requires 0 < srcrate && 0 < tarrate
    ensures Most(ExactClock(srcrate, tarrate), n) == CeilDiv(tarrate * n, srcrate)
  {
    var c, d := ExactClock(srcrate, tarrate), CeilDiv(tarrate * n, srcrate);
    var m := Most(c, n);
    CeilDivIff(tarrate * n, srcrate, -1);
    SameBound(c, n, m);
    SameBound(c, n, d);
    CeilDivIff(tarrate * n, srcrate, m);
    CeilDivIff(tarrate * n, srcrate, d);
  }

  lemma {:induction false} SameBound(c: Clock, n: nat, k: nat)
    requires 0 < c.srcrate && c.slack == 0.0
    ensures k < Most(c, n) <==> k * c.srcrate < c.tarrate * n
  {
    MostIff(c, n, k);
  }

  lemma {:induction false} ScaleIff(a: real, b: real, s: real)
    requires 0.0 < s
    ensures a < b <==> a * s < b * s
  {
    assert (b - a) * s == b * s - a * s;
    assert a < b <==> 0.0 < (b - a) * s;
  }

  /** The outputs made so far reach the last sample of the input, up to the rounding. */
  ghost predicate KeepsUp(c: Clock, st: State)
    requires 0 < c.tarrate
  {
    st.innum as real - 1.0 - c.slack <= Exact(c.srcrate, c.tarrate, st.outnum)
  }

  lemma {:induction false} AdvanceKeepsUp(c: Clock, st: State, chunk: seq<Sample>)
    requires c.Sound() && Ready(c, st) && DELAY <= |chunk|
    ensures 0 < c.tarrate && KeepsUp(c, Advance(c, st, chunk).0)
  {
    hide KeepsUp, Owed, Clock.Sound, Clock.Pos, Tolerant, Wrap;
    var m := Owed(c, st.innum + |chunk|, st.outnum);
    var raw := State(Newest(chunk), st.innum + |chunk|, st.outnum + m);
    ReachedKeepsUp(c, raw);
    WrapKeepsUp(c, raw);
  }

  lemma {:induction false} ReachedKeepsUp(c: Clock, st: State)
    requires c.Sound() && st.innum <= c.Pos(st.outnum) + 1
    ensures 0 < c.tarrate && KeepsUp(c, st)
  {
    hide Exact;
    assert 0.0 <= c.scale(st.outnum) <= Exact(c.srcrate, c.tarrate, st.outnum) + c.slack;
  }

  lemma {:induction false} WrapKeepsUp(c: Clock, st: State)
    requires c.Sound()
    ensures 0 < c.tarrate && (KeepsUp(c, st) ==> KeepsUp(c, Wrap(c, st)))
  {
    hide Exact;
    if c.srcrate <= st.innum && c.tarrate <= st.outnum {
      ExactShift(c.srcrate, c.tarrate, st.outnum - c.tarrate);
    }
  }

  lemma {:induction false} RunKeepsUp(c: Clock, chunks: seq<seq<Sample>>)
    requires c.Sound() && c.slack <= 2.5 && Chunked(chunks)
    ensures KeepsUp(c, Run(c, chunks).0)
  {
    if chunks == [] {
      ExactFloor(c.srcrate, c.tarrate, 0);
    } else {
      var last := |chunks| - 1;
      AdvanceKeepsUp(c, Run(c, chunks[..last]).0, chunks[last]);
    }
  }

  /** Whatever the rounding, no call of any run produces more than its share of outputs, with twice the
      slack added to its samples. */
  lemma {:induction false} RunCallBound(c: Clock, chunks: seq<seq<Sample>>, n: nat)
    requires c.Sound() && c.slack <= 2.5 && Chunked(chunks)
    ensures 0 < c.srcrate && 0.0 <= c.slack
    ensures var st := Run(c, chunks).0; Owed(c, st.innum + n, st.outnum) <= Most(c, n)
  {
    hide *;
    c.HasRates();
    RunKeepsUp(c, chunks);
    OwedAtMost(c, Run(c, chunks).0, n);
  }

  /** The outputs made so far reach no further than one output's span beyond the input, up to the rounding. */
  ghost predicate KeepsBack(c: Clock, st: State)
    requires 0 < c.tarrate
  {
    Exact(c.srcrate, c.tarrate, st.outnum) < st.innum as real - 1.0 + c.slack + Span(c, 1)
  }

  /** A call keeps the counters back, unless nothing has been produced since the start. */
  lemma {:induction false} EmitKeepsBack(c: Clock, st: State, n: nat)
    requires c.Sound() && Ready(c, st)
    requires 0 < c.tarrate && (KeepsBack(c, st) || 0 < Owed(c, st.innum + n, st.outnum))
    ensures KeepsBack(c, st.(innum := st.innum + n, outnum := st.outnum + Owed(c, st.innum + n, st.outnum)))
  {
    hide Owed, Exact, Span, Clock.Pos, Clock.Sound;
    var m := Owed(c, st.innum + n, st.outnum);
    if 0 < m {
      var k := st.outnum + m - 1;
      assert c.Pos(k) + 1 < st.innum + n;
      ExactBeforeNext(c, k);
      ExactStep(c, k, 1);
    }
  }

  lemma {:induction false} WrapKeepsBack(c: Clock, st: State)
    requires c.Sound()
    ensures 0 < c.tarrate && (KeepsBack(c, st) ==> KeepsBack(c, Wrap(c, st)))
  {
    hide Exact, Span;
    if c.srcrate <= st.innum && c.tarrate <= st.outnum {
      ExactShift(c.srcrate, c.tarrate, st.outnum - c.tarrate);
    }
  }

  /** Both counters, with the `w` seconds that wraps have taken off them. */
  predicate Tallies(c: Clock, st: State, n: nat, m: nat, w: nat) {
    st.innum + w * c.srcrate == n && st.outnum + w * c.tarrate == m
  }

  lemma {:induction false} WrapTallies(c: Clock, st: State, n: nat, m: nat, w: nat) returns (w': nat)
    requires Tallies(c, st, n, m, w)
    ensures Tallies(c, Wrap(c, st), n, m, w')
  {
    if c.srcrate <= st.innum && c.tarrate <= st.outnum {
      w' := w + 1;
      assert w' * c.srcrate == w * c.srcrate + c.srcrate && w' * c.tarrate == w * c.tarrate + c.tarrate;
    } else {
      w' := w;
    }
  }

  lemma {:induction false} AdvanceTallies(c: Clock, st: State, chunk: seq<Sample>, n: nat, m: nat,
      w: nat) returns (w': nat)
    requires c.Sound() && Ready(c, st) && DELAY <= |chunk| && Tallies(c, st, n, m, w)
    requires 0 < c.tarrate && (m == 0 || KeepsBack(c, st))
    ensures var (st', more) := Advance(c, st, chunk);
            Tallies(c, st', n + |chunk|, m + |more|, w') && (m + |more| == 0 || KeepsBack(c, st'))
  {
    hide KeepsBack, Owed, Clock.Sound, Ready, Wrap;
    var more := Owed(c, st.innum + |chunk|, st.outnum);
    var raw := State(Newest(chunk), st.innum + |chunk|, st.outnum + more);
    w' := WrapTallies(c, raw, n + |chunk|, m + more, w);
    if 0 < m + more {
      EmitKeepsBack(c, st, |chunk|);
      BackIgnoresDelay(c, st.(innum := raw.innum, outnum := raw.outnum), raw);
      WrapKeepsBack(c, raw);
    }
  }

  lemma {:induction false} BackIgnoresDelay(c: Clock, st: State, st': State)
    requires 0 < c.tarrate && st.innum == st'.innum && st.outnum == st'.outnum && KeepsBack(c, st)
    ensures KeepsBack(c, st')
  {
  }

  lemma {:induction false} RunTallies(c: Clock, chunks: seq<seq<Sample>>) returns (w: nat)
    requires c.Sound() && c.slack <= 2.5 && Chunked(chunks)
    ensures var (st, out) := Run(c, chunks);
            Tallies(c, st, |Flatten(chunks)|, |out|, w) && 0 < c.tarrate && (|out| == 0 || KeepsBack(c, st))
    decreases |chunks|
  {
    hide KeepsBack, Clock.Sound, Advance, Ready;
    c.HasRates();
    if chunks == [] {
      w := 0;
    } else {
      var last := |chunks| - 1;
      w := RunTallies(c, chunks[..last]);
      var (st, out) := Run(c, chunks[..last]);
      w := AdvanceTallies(c, st, chunks[last], |Flatten(chunks[..last])|, |out|, w);
    }
  }

  /** Rounding never accumulates: after n samples in all, however cut and however rounded, the position of
      the next output is within the slack of one call of where it belongs. */
  lemma {:induction false} RoundingStaysBounded(c: Clock, chunks: seq<seq<Sample>>)
    requires c.Sound() && c.slack <= 2.5 && Chunked(chunks)
    ensures 0 < c.tarrate
    ensures var n, m := |Flatten(chunks)|, |Run(c, chunks).1|;
            var next := Exact(c.srcrate, c.tarrate, m);
            && n as real - 1.0 - c.slack <= next
            && (0 < m ==> next < n as real - 1.0 + c.slack + c.srcrate as real / c.tarrate as real)
  {
    hide *;
    c.HasRates();
    var w := RunTallies(c, chunks);
    RunKeepsUp(c, chunks);
    var st := Run(c, chunks).0;
    ShiftBySeconds(c, st, |Flatten(chunks)|, |Run(c, chunks).1|, w);
  }

  lemma {:induction false} ShiftBySeconds(c: Clock, st: State, n: nat, m: nat, w: nat)
    requires 0 < c.tarrate && KeepsUp(c, st) && Tallies(c, st, n, m, w)
    ensures n as real - 1.0 - c.slack <= Exact(c.srcrate, c.tarrate, m)
    ensures KeepsBack(c, st) ==>
              Exact(c.srcrate, c.tarrate, m) < n as real - 1.0 + c.slack + c.srcrate as real / c.tarrate as real
  {
    hide Exact;
    SecondsShift(c, st.outnum, w);
    assert (w * c.srcrate) as real == w as real * c.srcrate as real;
  }

  /** The clock's position, in the whole stream's numbering, for output `k` of the whole run: the machine's
      position for the counter without the `w` seconds that wraps have taken off, moved on by them. */
  function PosInStream(c: Clock, k: nat, w: nat): real
    requires w * c.tarrate <= k
  {
    c.scale(k - w * c.tarrate) + (w * c.srcrate) as real
  }

  /** `value` is the interpolation of the stream `y` at the clock's position for output `k`, which is within
      the slack of where that output belongs. */
  ghost predicate Interpolates(c: Clock, y: seq<Sample>, k: nat, w: nat, value: Sample)
    requires 0 < c.tarrate
  {
    && w * c.tarrate <= k
    && var pos := PosInStream(c, k, w);
       && 0 <= Trunc(pos) && Trunc(pos) + 1 < |y|
       && value == Mix(pos, y[Trunc(pos)], y[Trunc(pos) + 1])
       && Exact(c.srcrate, c.tarrate, k) - c.slack <= pos <= Exact(c.srcrate, c.tarrate, k) + c.slack
  }

  /** Under any tolerated rounding, every output of every run interpolates the whole stream. */
  lemma {:induction false} OutputsInterpolate(c: Clock, chunks: seq<seq<Sample>>, chunk: seq<Sample>,
      j: nat) returns (w: nat)
    requires c.Sound() && c.slack <= 2.5 && Chunked(chunks) && DELAY <= |chunk|
    requires j < |Advance(c, Run(c, chunks).0, chunk).1|
    ensures 0 < c.tarrate
    ensures var (st, out) := Run(c, chunks);
            Interpolates(c, Flatten(chunks) + chunk, |out| + j, w, Advance(c, st, chunk).1[j])
  {
    hide *;
    w := RunTallies(c, chunks);
    DelayIsNewest(c, chunks);
    CallInterpolates(c, Run(c, chunks).0, Flatten(chunks), |Run(c, chunks).1|, w, chunk, j);
  }

  lemma {:induction false} CallInterpolates(c: Clock, st: State, x: seq<Sample>, m: nat, w: nat, chunk: seq<Sample>,
      j: nat)
    requires c.Sound() && Ready(c, st) && DELAY <= |chunk| && Tallies(c, st, |x|, m, w) && Continues(st, x)
    requires j < |Advance(c, st, chunk).1|
    ensures 0 < c.tarrate && Interpolates(c, x + chunk, m + j, w, Advance(c, st, chunk).1[j])
  {
    hide Owed, Clock.Sound, Exact, Mix, Tap, Emit, Saturate, Tolerant, Ready, Continues, Advance, Clock.Pos;
    var k, n := st.outnum + j, w * c.srcrate;
    var q := CallMixes(c, st, x, chunk, j);
    PosNonNegative(c, k);
    MixShifts(c.scale(k), n, (x + chunk)[q], (x + chunk)[q + 1]);
    PosIs(c, k);
    PositionShifts(c, k, w);
    assert m + j - w * c.tarrate == k;
  }

  /** The delay line holds the stream's last six samples; before the first one the counters are zero. */
  ghost predicate Continues(st: State, x: seq<Sample>) {
    if x == [] then st.innum == 0 else DELAY <= |x| && st.delay == Newest(x)
  }

  /** An output of one call mixes two neighbours of the stream. */
  lemma {:induction false} CallMixes(c: Clock, st: State, x: seq<Sample>, chunk: seq<Sample>, j: nat) returns (q: nat)
    requires c.Sound() && Ready(c, st) && DELAY <= |chunk| && Continues(st, x)
    requires j < |Advance(c, st, chunk).1|
    ensures var k, y := st.outnum + j, x + chunk;
            && q == c.Pos(k) + |x| - st.innum && q + 1 < |y|
            && Advance(c, st, chunk).1[j] == Saturate(Mix(c.scale(k), y[q], y[q + 1]))
  {
    hide Owed, Clock.Sound, Exact, Mix, Tap, Emit, Saturate, Tolerant, Clock.Pos;
    var k := st.outnum + j;
    EmitAt(c, st.delay, chunk, st.innum, st.outnum, j);
    PosNonNegative(c, k);
    TapsOfStream(st.delay, x, chunk, c.Pos(k) - st.innum);
    q := c.Pos(k) + |x| - st.innum;
  }

  lemma {:induction false} PosIs(c: Clock, k: nat)
    ensures c.Pos(k) == Trunc(c.scale(k))
  {
  }

  lemma {:induction false} PosNonNegative(c: Clock, k: nat)
    requires c.Sound()
    ensures 0.0 <= c.scale(k) && 0 <= c.Pos(k)
  {
  }

  lemma {:induction false} PositionShifts(c: Clock, k: nat, w: nat)
    requires c.Sound()
    ensures 0 < c.tarrate
    ensures var e, pos := Exact(c.srcrate, c.tarrate, k + w * c.tarrate), c.scale(k) + (w * c.srcrate) as real;
            e - c.slack <= pos <= e + c.slack
  {
    hide Exact;
    SecondsShift(c, k, w);
    assert (w * c.srcrate) as real == w as real * c.srcrate as real;
    assert Exact(c.srcrate, c.tarrate, k) - c.slack <= c.scale(k) <= Exact(c.srcrate, c.tarrate, k) + c.slack;
  }

  lemma {:induction false} MixShifts(nk: real, n: nat, p0: Sample, p1: Sample)
    requires 0.0 <= nk
    ensures Trunc(nk + n as real) == Trunc(nk) + n
    ensures Mix(nk + n as real, p0, p1) == Mix(nk, p0, p1) == Saturate(Mix(nk, p0, p1))
  {
    hide Blend;
    assert nk + n as real - Trunc(nk + n as real) as real == nk - Trunc(nk) as real;
    MixBetween(nk, p0, p1);
  }

  lemma {:induction false} DelayIsNewest(c: Clock, chunks: seq<seq<Sample>>)
    requires c.Sound() && c.slack <= 2.5 && Chunked(chunks)
    ensures Continues(Run(c, chunks).0, Flatten(chunks))
  {
    hide Clock.Sound, Owed, Emit;
    if chunks != [] {
      var last := |chunks| - 1;
      var (st, out) := Run(c, chunks[..last]);
      SlackSuffices(c, st, chunks[last]);
    }
  }

  /** The delay line continues the chunk into the stream's past. */
  lemma {:induction false} TapsOfStream(delay: seq<Sample>, x: seq<Sample>, chunk: seq<Sample>, n: int)
    requires |delay| == DELAY && -DELAY <= n && n + 1 < |chunk|
    requires if x == [] then 0 <= n else DELAY <= |x| && delay == Newest(x)
    ensures 0 <= |x| + n
    ensures Tap(delay, chunk, n) == (x + chunk)[|x| + n] && Tap(delay, chunk, n + 1) == (x + chunk)[|x| + n + 1]
  {
  }

  lemma {:induction false} SecondsShift(c: Clock, k: nat, w: nat)
    requires 0 < c.tarrate
    ensures Exact(c.srcrate, c.tarrate, k + w * c.tarrate)
         == Exact(c.srcrate, c.tarrate, k) + w as real * c.srcrate as real
  {
    assert (c.srcrate * (k + w * c.tarrate)) as real
        == (c.srcrate * k) as real + w as real * c.srcrate as real * c.tarrate as real;
  }

  lemma {:induction false} OwedAtMost(c: Clock, st: State, n: nat)
    requires c.Sound() && KeepsUp(c, st)
    ensures Owed(c, st.innum + n, st.outnum) <= Most(c, n)
  {
    hide *;
    c.HasRates();
    var m := Owed(c, st.innum + n, st.outnum);
    if 0 < m {
      PositionsOfCall(c, st, n, m);
      ShareBelow(st.innum as real, c.slack, Exact(c.srcrate, c.tarrate, st.outnum), Span(c, m - 1),
                 c.tarrate as real, n as real);
      SpanFits(c, n, m - 1);
    }
  }

  /** The source samples that `m` outputs take. */
  function Span(c: Clock, m: nat): real
    requires 0 < c.tarrate
  {
    m as real * c.srcrate as real / c.tarrate as real
  }

  lemma {:induction false} SpanTimes(c: Clock, m: nat)
    requires 0 < c.tarrate
    ensures Span(c, m) * c.tarrate as real == m as real * c.srcrate as real
  {
  }

  lemma {:induction false} SpanFits(c: Clock, n: nat, m: nat)
    requires 0 < c.srcrate && 0 < c.tarrate && 0.0 <= c.slack
    requires Span(c, m) * c.tarrate as real < c.tarrate as real * (n as real + 2.0 * c.slack)
    ensures m < Most(c, n)
  {
    MostIff(c, n, m);
    SpanTimes(c, m);
  }

  /** The first output of a call lies behind the chunk's start, the last before its end. */
  lemma {:induction false} PositionsOfCall(c: Clock, st: State, n: nat, m: nat)
    requires c.Sound() && KeepsUp(c, st) && 0 < m == Owed(c, st.innum + n, st.outnum)
    ensures 0 < c.tarrate
    ensures var e := Exact(c.srcrate, c.tarrate, st.outnum);
            && st.innum as real - 1.0 - c.slack <= e
            && e + Span(c, m - 1) < st.innum as real + n as real - 1.0 + c.slack
  {
    hide Owed, Exact, Span, Clock.Pos, Clock.Sound;
    c.HasRates();
    var k := st.outnum + m - 1;
    assert c.Pos(k) + 1 < st.innum + n;
    ExactBeforeNext(c, k);
    ExactStep(c, st.outnum, m - 1);
  }

  lemma {:induction false} ExactBeforeNext(c: Clock, k: nat)
    requires c.Sound()
    ensures Exact(c.srcrate, c.tarrate, k) < (c.Pos(k) + 1) as real + c.slack
  {
    hide Exact;
    assert Exact(c.srcrate, c.tarrate, k) - c.slack <= c.scale(k);
  }

  lemma {:induction false} ExactStep(c: Clock, k: nat, m: nat)
    requires 0 < c.tarrate
    ensures Exact(c.srcrate, c.tarrate, k + m) == Exact(c.srcrate, c.tarrate, k) + Span(c, m)
  {
    assert (c.srcrate * (k + m)) as real == (c.srcrate * k) as real + m as real * c.srcrate as real;
  }

  lemma {:induction false} ShareBelow(i: real, slack: real, e: real, q: real, t: real, n: real)
    requires 0.0 < t && i - 1.0 - slack <= e && e + q < i + n - 1.0 + slack
    ensures q * t < t * (n + 2.0 * slack)
  {
    ScaleIff(q, n + 2.0 * slack, t);
  }

  /** The positions of a clock at half the source rate that errs by `err`: low early, high late. */
  function Wobble(err: real): Scale {
    (k: nat) => Wobbled(err, k)
  }

  function Wobbled(err: real, k: nat): real {
    var x := Exact(12, 24, k);
    if 37 <= k then x + 2.5 else if 13 < k then x else if err <= x then x - err else 0.0
  }

  /** The six slots buy exactly 5/2: with any larger slack some call reaches before the delay line. */
  lemma {:induction false} SlackIsTight(slack: real, chunk: seq<Sample>)
    requires 2.5 < slack && |chunk| == 22
    ensures exists scale :: var c := Clock(12, 24, scale, slack);
              c.Sound() && Ready(c, START) && !Ready(c, Advance(c, START, chunk).0)
  {
    var err := if slack <= 3.0 then slack else 3.0;
    var c := Clock(12, 24, Wobble(err), slack);
    WobbleIsSound(err, slack);
    var out := Emit(c, START.delay, chunk, 0, 0);
    if |out| < 37 {
      c.PosMonotone(|out|, 36);
    }
    assert !Ready(c, Advance(c, START, chunk).0);
  }

  lemma {:induction false} WobbleIsSound(err: real, slack: real)
    requires 2.5 < err <= 3.0 && err <= slack
    ensures var c := Clock(12, 24, Wobble(err), slack);
            c.Sound() && c.Pos(0) == 0 && c.Pos(13) == 3 && c.Pos(36) == 18 && c.Pos(37) == 21
  {
    var c := Clock(12, 24, Wobble(err), slack);
    assert forall k: nat :: Exact(12, 24, k) == k as real / 2.0;
    assert forall k: nat :: c.scale(k) == Wobbled(err, k);
    assert c.scale(0) == 0.0 && c.scale(13) == 6.5 - err;
    assert c.scale(36) == 18.0 && c.scale(37) == 21.0;
  }
}
