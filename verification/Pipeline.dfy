/** The converter followed by the filter, for one channel and for two, over whole runs. */
module Pipeline {
  import opened Basics
  import opened Pcm
  import opened Position
  import opened Resampler
  import opened Streaming
  import opened DcReject

  /** One channel of a `RESAMPLE`: its converter state and its filter memory. */
  datatype Line = Line(st: State, hp: Memory)

  const REST := Line(START, ZERO)

  /** The filter the converter applies: cutoff 3 Hz at the target rate. */
  function Reject(tarrate: nat, tiny: real): Filter
    requires 0 < tarrate
  {
    Filter(4.0 * 3.0 / tarrate as real, tiny)
  }

  lemma {:induction false} RejectIsStable(tarrate: nat, tiny: real)
    requires 12 <= tarrate && 0.0 <= tiny
    ensures var f := Reject(tarrate, tiny);
            f.Stable() && 0.0 < f.coef && f.tiny == tiny && f.coef == 12.0 / tarrate as real
  {
  }

  /** One call on one channel. */
  ghost function Process(c: Clock, tiny: real, line: Line, chunk: seq<Sample>): (r: (Line, seq<Sample>))
    requires c.Sound() && Ready(c, line.st) && DELAY <= |chunk|
  {
    var (st, raw) := Advance(c, line.st, chunk);
    var f := Reject(c.tarrate, tiny);
    (Line(st, f.After(line.hp, raw)), f.Filtered(line.hp, raw))
  }

  lemma {:induction false} ProcessLength(c: Clock, tiny: real, line: Line, chunk: seq<Sample>)
    requires c.Sound() && Ready(c, line.st) && DELAY <= |chunk|
    ensures |Process(c, tiny, line, chunk).1| == Owed(c, line.st.innum + |chunk|, line.st.outnum)
  {
  }

  ghost function ProcessRun(c: Clock, tiny: real, chunks: seq<seq<Sample>>): (r: (Line, seq<Sample>))
    requires c.Sound() && c.slack <= 2.5 && Chunked(chunks)
    ensures r.0.st == Run(c, chunks).0
  {
    if chunks == [] then (REST, []) else
      var last := |chunks| - 1;
      var (line, out) := ProcessRun(c, tiny, chunks[..last]);
      var (line', more) := Process(c, tiny, line, chunks[last]);
      (line', out + more)
  }

  lemma {:induction false} ProcessOneMore(c: Clock, tiny: real, w: seq<seq<Sample>>, chunk: seq<Sample>)
    requires c.Sound() && c.slack <= 2.5 && Chunked(w) && DELAY <= |chunk|
    ensures Chunked(w + [chunk])
    ensures var (line, out) := ProcessRun(c, tiny, w);
            var (line', more) := Process(c, tiny, line, chunk);
            ProcessRun(c, tiny, w + [chunk]) == (line', out + more)
  {
    hide Process;
    assert (w + [chunk])[..|w|] == w;
  }

  /** However the calls are cut, the run is the filter applied once to what the converter produces. */
  lemma {:induction false} FilterOverRun(c: Clock, tiny: real, chunks: seq<seq<Sample>>)
    requires c.Sound() && c.slack <= 2.5 && Chunked(chunks)
    ensures var f := Reject(c.tarrate, tiny);
            && ProcessRun(c, tiny, chunks).0.hp == f.After(ZERO, Run(c, chunks).1)
            && ProcessRun(c, tiny, chunks).1 == f.Filtered(ZERO, Run(c, chunks).1)
    decreases |chunks|
  {
    var f := Reject(c.tarrate, tiny);
    if chunks != [] {
      var last := |chunks| - 1;
      FilterOverRun(c, tiny, chunks[..last]);
      var (st, out) := Run(c, chunks[..last]);
      var raw := Advance(c, st, chunks[last]).1;
      f.AfterConcat(ZERO, out, raw);
      f.FilteredConcat(ZERO, out, raw);
    }
  }

  /** Without rounding, the pipeline's output is the filtered batch of the whole stream. */
  lemma {:induction false} PipelineIsFilteredBatch(srcrate: nat, tarrate: nat, tiny: real, chunks: seq<seq<Sample>>)
    requires 0 < srcrate && 0 < tarrate && Chunked(chunks)
    ensures ExactClock(srcrate, tarrate).Sound()
    ensures ProcessRun(ExactClock(srcrate, tarrate), tiny, chunks).1
         == Reject(tarrate, tiny).Filtered(ZERO, Batch(srcrate, tarrate, Flatten(chunks)))
  {
    var _ := StreamingIsBatch(srcrate, tarrate, chunks);
    FilterOverRun(ExactClock(srcrate, tarrate), tiny, chunks);
  }

  /** A twelfth of a second, rounded up to samples, is one time constant of the filter. */
  lemma {:induction false} TimeConstant(tarrate: nat, tiny: real) returns (m: nat)
    requires 12 < tarrate
    ensures 0.0 < Reject(tarrate, tiny).coef < 1.0
    ensures m == CeilDiv(tarrate, 12) && 1.0 <= m as real * Reject(tarrate, tiny).coef
  {
    m := CeilDiv(tarrate, 12);
    var c := Reject(tarrate, tiny).coef;
    assert tarrate as real * c == 12.0;
    ProductMonotone(c, tarrate as real, 12.0 * m as real);
  }

  /** Output `k` is the first that mixes only samples from number `p` on. */
  function FirstFrom(srcrate: nat, tarrate: nat, p: nat): (k: nat)
    requires 0 < srcrate && 0 < tarrate
  {
    CeilDivIff(tarrate * p, srcrate, -1);
    CeilDiv(tarrate * p, srcrate)
  }

  lemma {:induction false} IdealOfConstant(srcrate: nat, tarrate: nat, y: seq<Sample>, p: nat, x: Sample, k: nat)
    requires 0 < srcrate && 0 < tarrate && p <= |y| && y[p..] == Repeat(x, |y| - p)
    requires FirstFrom(srcrate, tarrate, p) <= k && srcrate * k / tarrate + 1 < |y|
    ensures Ideal(srcrate, tarrate, y, k) == x
  {
    hide Repeat, Ideal;
    var q := srcrate * k / tarrate;
    CeilDivIff(tarrate * p, srcrate, k);
    FloorDivIff(srcrate * k, tarrate, p);
    assert tarrate * p == p * tarrate && srcrate * k == k * srcrate;
    assert y[q] == y[p..][q - p] && y[q + 1] == y[p..][q + 1 - p];
    IdealOfSame(srcrate, tarrate, y, k, x);
  }

  lemma {:induction false} IdealOfSame(srcrate: nat, tarrate: nat, y: seq<Sample>, k: nat, x: Sample)
    requires 0 < tarrate && var q := srcrate * k / tarrate; 0 <= q && q + 1 < |y| && y[q] == y[q + 1] == x
    ensures Ideal(srcrate, tarrate, y, k) == x
  {
  }

  /** From there on the batch of a stream that has become constant is constant. */
  lemma {:induction false} BatchOfConstant(srcrate: nat, tarrate: nat, y: seq<Sample>, p: nat, x: Sample)
    requires 0 < srcrate && 0 < tarrate && p <= |y| && y[p..] == Repeat(x, |y| - p)
    requires FirstFrom(srcrate, tarrate, p) <= |Batch(srcrate, tarrate, y)|
    ensures var b, k := Batch(srcrate, tarrate, y), FirstFrom(srcrate, tarrate, p);
            b == b[..k] + Repeat(x, |b| - k)
  {
    hide Ideal, Total, Batch, Repeat, FirstFrom;
    var b, k := Batch(srcrate, tarrate, y), FirstFrom(srcrate, tarrate, p);
    forall i | k <= i < |b|
      ensures b[i] == x
    {
      BatchAt(srcrate, tarrate, y, i);
      IdealOfConstant(srcrate, tarrate, y, p, x, i);
    }
  }

  /** A constant offset does not survive the pipeline: however a stream is cut, whatever the source rate and
      whatever came before, once its samples are constant from number `p` on, every output later than 22
      twelfths of a second after the first one made of them is zero. */
  lemma {:induction false} ConstantStreamIsSilenced(srcrate: nat, tarrate: nat, tiny: real, chunks: seq<seq<Sample>>,
      p: nat, x: Sample, n: nat)
    requires 0 < srcrate && 12 < tarrate && Chunked(chunks)
    requires p <= |Flatten(chunks)| && Flatten(chunks)[p..] == Repeat(x, |Flatten(chunks)| - p)
    requires 0.0 <= tiny && tiny / Reject(tarrate, tiny).coef <= 0.5
    requires FirstFrom(srcrate, tarrate, p) + 22 * CeilDiv(tarrate, 12) + 1 <= n
    requires n < Total(srcrate, tarrate, |Flatten(chunks)|)
    ensures ExactClock(srcrate, tarrate).Sound()
    ensures var out := ProcessRun(ExactClock(srcrate, tarrate), tiny, chunks).1; n < |out| && out[n] == 0
  {
    hide Ideal, Total, ProcessRun, Flatten, Clock.Sound, Chunked, Filter.Filtered, Filter.After, FirstFrom, Repeat;
    PipelineIsFilteredBatch(srcrate, tarrate, tiny, chunks);
    var y, k := Flatten(chunks), FirstFrom(srcrate, tarrate, p);
    var b, f := Batch(srcrate, tarrate, y), Reject(tarrate, tiny);
    var m := TimeConstant(tarrate, tiny);
    RejectIsStable(tarrate, tiny);
    BatchOfConstant(srcrate, tarrate, y, p, x);
    f.FilteredConcat(ZERO, b[..k], Repeat(x, |b| - k));
    f.RestIsBounded();
    f.StaysBounded(ZERO, b[..k]);
    f.ConstantIsRejected(f.After(ZERO, b[..k]), x, |b| - k, m, n - k);
  }

  /** Over any run the filter cells stay bounded, and so does every value converted to `int`. */
  lemma {:induction false} CellsStayBounded(c: Clock, tiny: real, chunks: seq<seq<Sample>>)
    requires c.Sound() && c.slack <= 2.5 && Chunked(chunks) && 12 <= c.tarrate && 0.0 <= tiny
    ensures Reject(c.tarrate, tiny).Bounded(ProcessRun(c, tiny, chunks).0.hp)
    ensures var f, raw := Reject(c.tarrate, tiny), Run(c, chunks).1;
            && 0.0 < f.coef && ProcessRun(c, tiny, chunks).1 == f.Filtered(ZERO, raw)
            && var b := 131072.0 + 3.0 * (tiny / f.coef);
               forall i :: 0 <= i < |raw| ==> -b <= f.Value(ZERO, raw, i) <= b
  {
    hide *;
    var f, raw := Reject(c.tarrate, tiny), Run(c, chunks).1;
    RejectIsStable(c.tarrate, tiny);
    FilterOverRun(c, tiny, chunks);
    f.RestIsBounded();
    f.StaysBounded(ZERO, raw);
    forall i | 0 <= i < |raw|
      ensures var b := 131072.0 + 3.0 * (tiny / f.coef); -b <= f.Value(ZERO, raw, i) <= b
    {
      f.ValueIsBounded(ZERO, raw, i);
    }
  }

  /** One call on an interleaved chunk. */
  ghost function ProcessStereo(c: Clock, tiny: real, lines: (Line, Line), chunk: seq<Sample>)
      : (r: ((Line, Line), seq<Sample>))
    requires c.Sound() && Ready(c, lines.0.st) && Ready(c, lines.1.st) && InStep(lines)
    requires 2 * DELAY <= |chunk|
    ensures InStep(r.0)
  {
    var left, right := Channel(chunk, 0), Channel(chunk, 1);
    var (l, y) := Process(c, tiny, lines.0, left);
    var (r, z) := Process(c, tiny, lines.1, right);
    ((l, r), Interleave(y, z))
  }

  /** Two channels share their counters. */
  predicate InStep(lines: (Line, Line)) {
    lines.0.st.innum == lines.1.st.innum && lines.0.st.outnum == lines.1.st.outnum
  }

  ghost function StereoRun(c: Clock, tiny: real, chunks: seq<seq<Sample>>): (r: ((Line, Line), seq<Sample>))
    requires c.Sound() && c.slack <= 2.5 && StereoChunked(chunks)
    ensures Ready(c, r.0.0.st) && Ready(c, r.0.1.st) && InStep(r.0)
    decreases |chunks|
  {
    if chunks == [] then
      c.PosMonotone(0, 0);
      ((REST, REST), [])
    else
      var last := |chunks| - 1;
      var (lines, out) := StereoRun(c, tiny, chunks[..last]);
      SlackSuffices(c, lines.0.st, Channel(chunks[last], 0));
      SlackSuffices(c, lines.1.st, Channel(chunks[last], 1));
      var (lines', more) := ProcessStereo(c, tiny, lines, chunks[last]);
      (lines', out + more)
  }

  ghost predicate StereoChunked(chunks: seq<seq<Sample>>) {
    forall i :: 0 <= i < |chunks| ==> 2 * DELAY <= |chunks[i]|
  }

  /** The chunks one channel sees. */
  function Picked(chunks: seq<seq<Sample>>, ch: nat): (p: seq<seq<Sample>>)
    requires ch < 2
    ensures |p| == |chunks|
  {
    if chunks == [] then [] else
      Picked(chunks[..|chunks| - 1], ch) + [Channel(chunks[|chunks| - 1], ch)]
  }

  lemma {:induction false} PickedChunked(chunks: seq<seq<Sample>>, ch: nat)
    requires ch < 2 && StereoChunked(chunks)
    ensures Chunked(Picked(chunks, ch))
    decreases |chunks|
  {
    if chunks != [] {
      PickedChunked(chunks[..|chunks| - 1], ch);
    }
  }

  /** Stereo is two monos: over any run the stereo output interleaves the outputs of two independent
      mono runs, one on each channel, and the shared counters are each run's own. */
  lemma {:induction false} StereoIsTwoMonos(c: Clock, tiny: real, chunks: seq<seq<Sample>>)
    requires c.Sound() && c.slack <= 2.5 && StereoChunked(chunks)
    ensures Chunked(Picked(chunks, 0)) && Chunked(Picked(chunks, 1))
    ensures var (lines, out) := StereoRun(c, tiny, chunks);
            var left, right := ProcessRun(c, tiny, Picked(chunks, 0)), ProcessRun(c, tiny, Picked(chunks, 1));
            && lines == (left.0, right.0)
            && |left.1| == |right.1| && out == Interleave(left.1, right.1)
    decreases |chunks|
  {
    hide *;
    PickedChunked(chunks, 0);
    PickedChunked(chunks, 1);
    if chunks == [] {
      StereoBase(c, tiny, chunks);
    } else {
      var last := |chunks| - 1;
      MonoStep(c, tiny, chunks, 0);
      MonoStep(c, tiny, chunks, 1);
      StereoStep(c, tiny, chunks);
      StereoIsTwoMonos(c, tiny, chunks[..last]);
      var (l, y) := ProcessRun(c, tiny, Picked(chunks[..last], 0));
      var (r, z) := ProcessRun(c, tiny, Picked(chunks[..last], 1));
      InterleaveConcat(y, z, Process(c, tiny, l, Channel(chunks[last], 0)).1,
                       Process(c, tiny, r, Channel(chunks[last], 1)).1);
    }
  }

  lemma {:induction false} StereoBase(c: Clock, tiny: real, chunks: seq<seq<Sample>>)
    requires c.Sound() && c.slack <= 2.5 && chunks == []
    ensures Picked(chunks, 0) == Picked(chunks, 1) == []
    ensures StereoRun(c, tiny, chunks) == ((REST, REST), Interleave<Sample>([], []))
    ensures ProcessRun(c, tiny, chunks) == (REST, [])
  {
  }

  lemma {:induction false} MonoStep(c: Clock, tiny: real, chunks: seq<seq<Sample>>, ch: nat)
    requires c.Sound() && c.slack <= 2.5 && StereoChunked(chunks) && ch < 2 && chunks != []
    ensures var last := |chunks| - 1;
            && StereoChunked(chunks[..last]) && DELAY <= |Channel(chunks[last], ch)|
            && Chunked(Picked(chunks, ch)) && Chunked(Picked(chunks[..last], ch))
            && var (line, out) := ProcessRun(c, tiny, Picked(chunks[..last], ch));
               var (line', more) := Process(c, tiny, line, Channel(chunks[last], ch));
               ProcessRun(c, tiny, Picked(chunks, ch)) == (line', out + more)
  {
    PickedChunked(chunks, ch);
    PickedChunked(chunks[..|chunks| - 1], ch);
    assert Picked(chunks, ch)[..|chunks| - 1] == Picked(chunks[..|chunks| - 1], ch);
  }

  lemma {:induction false} StereoStep(c: Clock, tiny: real, chunks: seq<seq<Sample>>)
    requires c.Sound() && c.slack <= 2.5 && StereoChunked(chunks) && chunks != []
    ensures var last := |chunks| - 1;
            var (lines, out) := StereoRun(c, tiny, chunks[..last]);
            var (l, y) := Process(c, tiny, lines.0, Channel(chunks[last], 0));
            var (r, z) := Process(c, tiny, lines.1, Channel(chunks[last], 1));
            |y| == |z| && StereoRun(c, tiny, chunks) == ((l, r), out + Interleave(y, z))
  {
  }

  lemma {:induction false} InterleaveConcat<T>(a: seq<T>, b: seq<T>, a': seq<T>, b': seq<T>)
    requires |a| == |b| && |a'| == |b'|
    ensures Interleave(a, b) + Interleave(a', b') == Interleave(a + a', b + b')
  {
  }
}
