/** The converter as the firmware runs it: loops over buffers, with a `RESAMPLE` updated in place. */
module AudioResample {
  import opened Pcm
  import opened Position
  import opened Resampler
  import opened DcReject
  import opened Pipeline

  /** The control structure: delay line, running counters, filter cells. */
  class Resample {
    const inpcm: array<Sample>
    var innum: nat
    var outnum: nat
    const hpMem: array<real>

    ghost predicate Valid() {
      inpcm.Length == 2 * DELAY && hpMem.Length == 4
    }

    /** The converter state of the mono variants, which use the first six delay slots. */
    ghost function Mono(): State
      reads this, inpcm
      requires Valid()
    {
      State(inpcm[..DELAY], innum, outnum)
    }

    /** The converter state of one channel of the interleaved variant. */
    ghost function Stereo(ch: nat): State
      reads this, inpcm
      requires Valid() && ch < 2
    {
      State(Channel(inpcm[..], ch), innum, outnum)
    }

    ghost function Cells(ch: nat): Memory
      reads hpMem
      requires Valid() && ch < 2
    {
      Memory(hpMem[2 * ch], hpMem[2 * ch + 1])
    }

    ghost function MonoLine(): Line
      reads this, inpcm, hpMem
      requires Valid()
    {
      Line(Mono(), Cells(0))
    }

    ghost function StereoLine(ch: nat): Line
      reads this, inpcm, hpMem
      requires Valid() && ch < 2
    {
      Line(Stereo(ch), Cells(ch))
    }

    /** What the next call does, filter included: mono, channel `ch` of interleaved, or the picked channel. */
    ghost function MonoStep(c: Clock, tiny: real, x: array<Sample>, n: nat): (Line, seq<Sample>)
      reads this, inpcm, hpMem, x
      requires Valid() && c.Sound() && Ready(c, Mono()) && DELAY <= n <= x.Length
    {
      Process(c, tiny, MonoLine(), x[..n])
    }

    ghost function StereoStep(c: Clock, tiny: real, x: array<Sample>, n: nat, ch: nat): (Line, seq<Sample>)
      reads this, inpcm, hpMem, x
      requires Valid() && ch < 2 && c.Sound() && Ready(c, Stereo(0)) && DELAY <= n && 2 * n <= x.Length
    {
      Process(c, tiny, StereoLine(ch), Channel(x[..2 * n], ch))
    }

    ghost function PickedStep(c: Clock, tiny: real, x: array<Sample>, n: nat, ch: nat): (Line, seq<Sample>)
      reads this, inpcm, hpMem, x
      requires Valid() && ch < 2 && c.Sound() && Ready(c, Mono()) && DELAY <= n && 2 * n <= x.Length
    {
      Process(c, tiny, MonoLine(), Channel(x[..2 * n], ch))
    }

    /** What the next call yields before the filter: mono, channel `ch` of interleaved, or the picked channel `ch`. */
    ghost function MonoOut(c: Clock, x: array<Sample>, n: nat): seq<Sample>
      reads this, inpcm, x
      requires Valid() && c.Sound() && Ready(c, Mono()) && n <= x.Length
    {
      Emit(c, Mono().delay, x[..n], innum, outnum)
    }

    ghost function StereoOut(c: Clock, x: array<Sample>, n: nat, ch: nat): seq<Sample>
      reads this, inpcm, x
      requires Valid() && ch < 2 && c.Sound() && Ready(c, Stereo(ch)) && 2 * n <= x.Length
    {
      Emit(c, Stereo(ch).delay, Channel(x[..2 * n], ch), innum, outnum)
    }

    ghost function PickedOut(c: Clock, x: array<Sample>, n: nat, ch: nat): seq<Sample>
      reads this, inpcm, x
      requires Valid() && ch < 2 && c.Sound() && Ready(c, Mono()) && 2 * n <= x.Length
    {
      Emit(c, Mono().delay, Channel(x[..2 * n], ch), innum, outnum)
    }

    lemma {:induction false} StereoOutAt(c: Clock, x: array<Sample>, n: nat, ch: nat, j: nat)
      requires Valid() && ch < 2 && c.Sound() && Ready(c, Stereo(ch)) && 2 * n <= x.Length
      requires j <= |StereoOut(c, x, n, ch)|
      ensures var k := c.Pos(outnum + j) - innum;
              && (j < |StereoOut(c, x, n, ch)| <==> k + 1 < n)
              && (k + 1 < n ==>
                    && -DELAY <= k
                    && StereoOut(c, x, n, ch)[j]
                       == var d, xs := Channel(inpcm[..], ch), Channel(x[..2 * n], ch);
                          Saturate(Mix(c.scale(outnum + j), Tap(d, xs, k), Tap(d, xs, k + 1))))
    {
      hide Emit, Output, Owed, Mix, Saturate, Tolerant, Clock.Sound, Trunc, Tap, Channel;
      EmitAt(c, Stereo(ch).delay, Channel(x[..2 * n], ch), innum, outnum, j);
    }

    constructor ()
      ensures Valid() && fresh(inpcm) && fresh(hpMem)
      ensures MonoLine() == REST && StereoLine(0) == REST && StereoLine(1) == REST
    {
      inpcm := new Sample[2 * DELAY](_ => 0);
      hpMem := new real[4](_ => 0.0);
      innum, outnum := 0, 0;
    }

    method Clear()
      requires Valid()
      modifies this, inpcm, hpMem
      ensures MonoLine() == REST && StereoLine(0) == REST && StereoLine(1) == REST
      ensures innum == 0 && outnum == 0
      ensures (forall i :: 0 <= i < inpcm.Length ==> inpcm[i] == 0) && (forall i :: 0 <= i < 4 ==> hpMem[i] == 0.0)
    {
      innum, outnum := 0, 0;
      forall i | 0 <= i < inpcm.Length {
        inpcm[i] := 0;
      }
      forall i | 0 <= i < hpMem.Length {
        hpMem[i] := 0.0;
      }
    }
  }

  /** The weighted sum of two neighbours, cut to sixteen bits. */
  method WeightedSample(nk: real, p0: Sample, p1: Sample) returns (y: Sample)
    ensures y == Saturate(Mix(nk, p0, p1))
  {
    hide Mean, Trunc;
    var n := Trunc(nk);
    var w0 := nk - n as real;
    var w1 := 1.0 - w0;
    MeanIs(w0, w1, p0 as real, p1 as real);
    var value := Trunc(w0 * p1 as real + w1 * p0 as real);
    if value > 32767 {
      value := 32767;
    }
    if value < -32768 {
      value := -32768;
    }
    y := value;
  }

  lemma {:induction false} MeanIs(w0: real, w1: real, p0: real, p1: real)
    requires w1 == 1.0 - w0
    ensures Mean(w0, p0, p1) == w0 * p1 + w1 * p0
  {
  }

  /** C's memcpy of `n` samples from `src[start]` on. */
  method Memcpy(dst: array<Sample>, src: array<Sample>, start: nat, n: nat)
    requires dst != src && n <= dst.Length && start + n <= src.Length
    modifies dst
    ensures dst[..n] == src[start..start + n] && dst[n..] == old(dst[n..])
  {
    forall i | 0 <= i < n {
      dst[i] := src[start + i];
    }
  }

  /** Sample `n` of the chunk in `inpcm[..innum]`, reaching back into the delay line when negative. */
  method FetchMono(delay: array<Sample>, inpcm: array<Sample>, innum: nat, n: int) returns (p: Sample)
    requires DELAY <= delay.Length && innum <= inpcm.Length && -DELAY <= n < innum
    ensures p == Tap(delay[..DELAY], inpcm[..innum], n)
  {
    if n < 0 {
      p := delay[DELAY + n];
    } else {
      p := inpcm[n];
    }
  }

  /** The same for channel `ch` of an interleaved chunk and an interleaved delay line. */
  method FetchStereo(delay: array<Sample>, inpcm: array<Sample>, innum: nat, n: int, ch: nat) returns (p: Sample)
    requires delay.Length == 2 * DELAY && 2 * innum <= inpcm.Length && -DELAY <= n < innum && ch < 2
    ensures p == Tap(Channel(delay[..], ch), Channel(inpcm[..2 * innum], ch), n)
  {
    if n < 0 {
      p := delay[DELAY * 2 + 2 * n + ch];
    } else {
      p := inpcm[2 * n + ch];
    }
  }

  /** The same for channel `ch` of an interleaved chunk and the one-channel delay line. */
  method FetchDownCh(delay: array<Sample>, inpcm: array<Sample>, innum: nat, n: int, ch: nat) returns (p: Sample)
    requires DELAY <= delay.Length && 2 * innum <= inpcm.Length && -DELAY <= n < innum && ch < 2
    ensures p == Tap(delay[..DELAY], Channel(inpcm[..2 * innum], ch), n)
  {
    if n < 0 {
      p := delay[DELAY + n];
    } else {
      p := inpcm[n * 2 + ch];
    }
  }

  /** Loop body: whether output `outnum` of this call must wait for the next chunk, else its value. */
  method NextMono(inpcm: array<Sample>, c: Clock, innum: nat, resample: Resample, outnum: nat)
      returns (done: bool, value: Sample)
    requires resample.Valid() && c.Sound() && Ready(c, resample.Mono()) && innum <= inpcm.Length
    requires outnum <= |resample.MonoOut(c, inpcm, innum)|
    ensures var emit := resample.MonoOut(c, inpcm, innum);
            (done <==> outnum == |emit|) && (!done ==> value == emit[outnum])
  {
    hide Emit, Output, Owed, Mix, Saturate, Tolerant, Clock.Sound, Trunc, Tap, Channel;
    EmitAt(c, resample.inpcm[..DELAY], inpcm[..innum], resample.innum, resample.outnum, outnum);
    var nk := c.scale(resample.outnum + outnum);
    var n := Trunc(nk) - resample.innum;
    var n_1 := n + 1;
    if n_1 >= innum {
      return true, 0;
    }
    var p0 := FetchMono(resample.inpcm, inpcm, innum, n);
    var p1 := FetchMono(resample.inpcm, inpcm, innum, n_1);
    value := WeightedSample(nk, p0, p1);
    done := false;
  }

  method MonoLoop(inpcm: array<Sample>, outpcm: array<Sample>, c: Clock, innum: nat, resample: Resample)
      returns (outnum: nat)
    requires resample.Valid() && c.Sound() && Ready(c, resample.Mono()) && innum <= inpcm.Length
    requires inpcm != outpcm && resample.inpcm != outpcm
    requires |resample.MonoOut(c, inpcm, innum)| <= outpcm.Length
    modifies outpcm
    ensures outnum <= outpcm.Length && outpcm[..outnum] == resample.MonoOut(c, inpcm, innum)
    ensures outpcm[outnum..] == old(outpcm[outnum..])
  {
    hide Emit, Output, Owed, Mix, Saturate, Tolerant, Clock.Sound, Trunc, Tap, Channel, Ready, Resample.MonoOut;
    ghost var emit := resample.MonoOut(c, inpcm, innum);
    outnum := 0;
    while true
      invariant outnum <= |emit|
      invariant forall j :: 0 <= j < outnum ==> outpcm[j] == emit[j]
      invariant forall j :: outnum <= j < outpcm.Length ==> outpcm[j] == old(outpcm[j])
      decreases |emit| - outnum
    {
      var done, value := NextMono(inpcm, c, innum, resample, outnum);
      if done {
        break;
      }
      outpcm[outnum] := value;
      outnum := outnum + 1;
    }
  }

  method ResamplingMono(inpcm: array<Sample>, outpcm: array<Sample>, c: Clock, innum: nat, resample: Resample)
      returns (outnum: nat)
    requires resample.Valid() && c.Sound() && Ready(c, resample.Mono())
    requires DELAY <= innum <= inpcm.Length
    requires inpcm != outpcm && resample.inpcm != inpcm && resample.inpcm != outpcm
    requires Owed(c, resample.innum + innum, resample.outnum) <= outpcm.Length
    modifies resample.inpcm, outpcm
    ensures outnum <= outpcm.Length && outpcm[outnum..] == old(outpcm[outnum..])
    ensures var st, chunk := old(resample.Mono()), inpcm[..innum];
            && outpcm[..outnum] == Emit(c, st.delay, chunk, st.innum, st.outnum)
            && resample.inpcm[..DELAY] == Newest(chunk)
    ensures resample.inpcm[DELAY..] == old(resample.inpcm[DELAY..])
  {
    hide Emit, Output, Owed, Mix, Saturate, Tolerant, Clock.Sound, Trunc, Tap, Channel, Ready;
    outnum := MonoLoop(inpcm, outpcm, c, innum, resample);
    Memcpy(resample.inpcm, inpcm, innum - DELAY, DELAY);
    assert Newest(inpcm[..innum]) == inpcm[innum - DELAY..innum];
  }

  /** One channel's value of an interleaved output whose left neighbour is sample `n`. */
  method StereoSample(delay: array<Sample>, inpcm: array<Sample>, innum: nat, nk: real, n: int, ch: nat)
      returns (y: Sample)
    requires delay.Length == 2 * DELAY && 2 * innum <= inpcm.Length && -DELAY <= n && n + 1 < innum && ch < 2
    ensures var d, x := Channel(delay[..], ch), Channel(inpcm[..2 * innum], ch);
            y == Saturate(Mix(nk, Tap(d, x, n), Tap(d, x, n + 1)))
  {
    var p0 := FetchStereo(delay, inpcm, innum, n, ch);
    var p1 := FetchStereo(delay, inpcm, innum, n + 1, ch);
    y := WeightedSample(nk, p0, p1);
  }

  /** Loop body of the interleaved variant: both channels' values. */
  method NextStereo(inpcm: array<Sample>, c: Clock, innum: nat, resample: Resample, outnum: nat)
      returns (done: bool, left: Sample, right: Sample)
    requires resample.Valid() && c.Sound() && Ready(c, resample.Stereo(0)) && Ready(c, resample.Stereo(1))
    requires 2 * innum <= inpcm.Length
    requires outnum <= |resample.StereoOut(c, inpcm, innum, 0)| == |resample.StereoOut(c, inpcm, innum, 1)|
    ensures var emit := resample.StereoOut(c, inpcm, innum, 0);
            (done <==> outnum == |emit|) && (!done ==> left == emit[outnum])
    ensures var emit := resample.StereoOut(c, inpcm, innum, 1);
            (done <==> outnum == |emit|) && (!done ==> right == emit[outnum])
  {
    hide Emit, Output, Owed, Mix, Saturate, Tolerant, Clock.Sound, Trunc, Tap, Channel;
    hide Resample.StereoOut, Resample.Stereo;
    resample.StereoOutAt(c, inpcm, innum, 0, outnum);
    resample.StereoOutAt(c, inpcm, innum, 1, outnum);
    var nk := c.scale(resample.outnum + outnum);
    var n := Trunc(nk) - resample.innum;
    var n_1 := n + 1;
    if n_1 >= innum {
      return true, 0, 0;
    }
    left := StereoSample(resample.inpcm, inpcm, innum, nk, n, 0);
    right := StereoSample(resample.inpcm, inpcm, innum, nk, n, 1);
    done := false;
  }

  method StereoLoop(inpcm: array<Sample>, outpcm: array<Sample>, c: Clock, innum: nat, resample: Resample)
      returns (outnum: nat)
    requires resample.Valid() && c.Sound() && Ready(c, resample.Stereo(0)) && Ready(c, resample.Stereo(1))
    requires inpcm != outpcm && resample.inpcm != outpcm && 2 * innum <= inpcm.Length
    requires |resample.StereoOut(c, inpcm, innum, 0)| == |resample.StereoOut(c, inpcm, innum, 1)|
    requires 2 * |resample.StereoOut(c, inpcm, innum, 0)| <= outpcm.Length
    modifies outpcm
    ensures 2 * outnum <= outpcm.Length && outpcm[2 * outnum..] == old(outpcm[2 * outnum..])
    ensures Channel(outpcm[..2 * outnum], 0) == resample.StereoOut(c, inpcm, innum, 0)
    ensures Channel(outpcm[..2 * outnum], 1) == resample.StereoOut(c, inpcm, innum, 1)
  {
    hide Emit, Output, Owed, Mix, Saturate, Tolerant, Clock.Sound, Trunc, Tap, Channel, Ready;
    hide Resample.StereoOut, Resample.Stereo;
    ghost var emit0, emit1 := resample.StereoOut(c, inpcm, innum, 0), resample.StereoOut(c, inpcm, innum, 1);
    outnum := 0;
    while true
      invariant outnum <= |emit0|
      invariant forall j :: 0 <= j < outnum ==> outpcm[2 * j] == emit0[j]
      invariant forall j :: 0 <= j < outnum ==> outpcm[2 * j + 1] == emit1[j]
      invariant forall j :: 2 * outnum <= j < outpcm.Length ==> outpcm[j] == old(outpcm[j])
      decreases |emit0| - outnum
    {
      var done, y, z := NextStereo(inpcm, c, innum, resample, outnum);
      if done {
        break;
      }
      outpcm[outnum * 2] := y;
      outpcm[outnum * 2 + 1] := z;
      outnum := outnum + 1;
    }
    ChannelsAre(outpcm[..2 * outnum], emit0, emit1);
  }

  lemma {:induction false} ChannelsAre(ys: seq<Sample>, left: seq<Sample>, right: seq<Sample>)
    requires |ys| == 2 * |left| && |left| == |right|
    requires forall j :: 0 <= j < |left| ==> ys[2 * j] == left[j]
    requires forall j :: 0 <= j < |left| ==> ys[2 * j + 1] == right[j]
    ensures Channel(ys, 0) == left && Channel(ys, 1) == right
  {
  }

  method ResamplingDual(inpcm: array<Sample>, outpcm: array<Sample>, c: Clock, innum: nat, resample: Resample)
      returns (outnum: nat)
    requires resample.Valid() && c.Sound() && Ready(c, resample.Stereo(0))
    requires DELAY <= innum && 2 * innum <= inpcm.Length
    requires inpcm != outpcm && resample.inpcm != inpcm && resample.inpcm != outpcm
    requires 2 * Owed(c, resample.innum + innum, resample.outnum) <= outpcm.Length
    modifies resample.inpcm, outpcm
    ensures 2 * outnum <= outpcm.Length && outpcm[2 * outnum..] == old(outpcm[2 * outnum..])
    ensures var st, chunk := old(resample.Stereo(0)), Channel(inpcm[..2 * innum], 0);
            && Channel(outpcm[..2 * outnum], 0) == Emit(c, st.delay, chunk, st.innum, st.outnum)
            && Channel(resample.inpcm[..], 0) == Newest(chunk)
    ensures var st, chunk := old(resample.Stereo(1)), Channel(inpcm[..2 * innum], 1);
            && Channel(outpcm[..2 * outnum], 1) == Emit(c, st.delay, chunk, st.innum, st.outnum)
            && Channel(resample.inpcm[..], 1) == Newest(chunk)
  {
    hide Emit, Output, Owed, Mix, Saturate, Tolerant, Clock.Sound, Trunc, Tap, Channel;
    outnum := StereoLoop(inpcm, outpcm, c, innum, resample);
    SaveBoth(resample.inpcm, inpcm, innum);
  }

  /** Fills the delay line with the last twelve interleaved samples. */
  method SaveBoth(dst: array<Sample>, src: array<Sample>, innum: nat)
    requires dst != src && dst.Length == 2 * DELAY && DELAY <= innum && 2 * innum <= src.Length
    modifies dst
    ensures forall ch :: 0 <= ch < 2 ==> Channel(dst[..], ch) == Newest(Channel(src[..2 * innum], ch))
  {
    ghost var xs := src[..2 * innum];
    Memcpy(dst, src, innum * 2 - DELAY * 2, DELAY * 2);
    assert dst[..] == xs[2 * innum - 2 * DELAY..];
    NewestOfChannel(xs, dst[..], 0);
    NewestOfChannel(xs, dst[..], 1);
  }

  /** The last twelve interleaved samples are the last six of each channel. */
  lemma {:induction false} NewestOfChannel(xs: seq<Sample>, tail: seq<Sample>, ch: nat)
    requires ch < 2 && |xs| % 2 == 0 && 2 * DELAY <= |xs| && tail == xs[|xs| - 2 * DELAY..]
    ensures Channel(tail, ch) == Newest(Channel(xs, ch))
  {
  }

  /** Loop body of the variant that picks one channel. */
  method NextDownCh(inpcm: array<Sample>, channelidx: nat, c: Clock, innum: nat, resample: Resample, outnum: nat)
      returns (done: bool, value: Sample)
    requires resample.Valid() && c.Sound() && Ready(c, resample.Mono()) && 2 * innum <= inpcm.Length && channelidx < 2
    requires outnum <= |resample.PickedOut(c, inpcm, innum, channelidx)|
    ensures var emit := resample.PickedOut(c, inpcm, innum, channelidx);
            (done <==> outnum == |emit|) && (!done ==> value == emit[outnum])
  {
    hide Emit, Output, Owed, Mix, Saturate, Tolerant, Clock.Sound, Trunc, Tap, Channel;
    EmitAt(c, resample.Mono().delay, Channel(inpcm[..2 * innum], channelidx), resample.innum, resample.outnum, outnum);
    var nk := c.scale(resample.outnum + outnum);
    var n := Trunc(nk) - resample.innum;
    var n_1 := n + 1;
    if n_1 >= innum {
      return true, 0;
    }
    var p0 := FetchDownCh(resample.inpcm, inpcm, innum, n, channelidx);
    var p1 := FetchDownCh(resample.inpcm, inpcm, innum, n_1, channelidx);
    value := WeightedSample(nk, p0, p1);
    done := false;
  }

  method DownChLoop(inpcm: array<Sample>, channelidx: nat, outpcm: array<Sample>, c: Clock, innum: nat,
                    resample: Resample) returns (outnum: nat)
    requires resample.Valid() && c.Sound() && Ready(c, resample.Mono()) && 2 * innum <= inpcm.Length && channelidx < 2
    requires inpcm != outpcm && resample.inpcm != outpcm
    requires |resample.PickedOut(c, inpcm, innum, channelidx)| <= outpcm.Length
    modifies outpcm
    ensures outnum <= outpcm.Length && outpcm[..outnum] == resample.PickedOut(c, inpcm, innum, channelidx)
    ensures outpcm[outnum..] == old(outpcm[outnum..])
  {
    hide Emit, Output, Owed, Mix, Saturate, Tolerant, Clock.Sound, Trunc, Tap, Channel, Ready, Resample.PickedOut;
    ghost var emit := resample.PickedOut(c, inpcm, innum, channelidx);
    outnum := 0;
    while true
      invariant outnum <= |emit|
      invariant forall j :: 0 <= j < outnum ==> outpcm[j] == emit[j]
      invariant forall j :: outnum <= j < outpcm.Length ==> outpcm[j] == old(outpcm[j])
      decreases |emit| - outnum
    {
      var done, value := NextDownCh(inpcm, channelidx, c, innum, resample, outnum);
      if done {
        break;
      }
      outpcm[outnum] := value;
      outnum := outnum + 1;
    }
  }

  method ResamplingDualDownCh(inpcm: array<Sample>, channelidx: nat, outpcm: array<Sample>, c: Clock, innum: nat,
                              resample: Resample) returns (outnum: nat)
    requires resample.Valid() && c.Sound() && Ready(c, resample.Mono()) && channelidx < 2
    requires DELAY <= innum && 2 * innum <= inpcm.Length
    requires inpcm != outpcm && resample.inpcm != inpcm && resample.inpcm != outpcm
    requires Owed(c, resample.innum + innum, resample.outnum) <= outpcm.Length
    modifies resample.inpcm, outpcm
    ensures outnum <= outpcm.Length && outpcm[outnum..] == old(outpcm[outnum..])
    ensures var st, chunk := old(resample.Mono()), Channel(inpcm[..2 * innum], channelidx);
            && outpcm[..outnum] == Emit(c, st.delay, chunk, st.innum, st.outnum)
            && resample.inpcm[..DELAY] == Newest(chunk)
    ensures resample.inpcm[DELAY..] == old(resample.inpcm[DELAY..])
  {
    hide Emit, Output, Owed, Mix, Saturate, Tolerant, Clock.Sound, Trunc, Tap, Channel, Ready;
    outnum := DownChLoop(inpcm, channelidx, outpcm, c, innum, resample);
    SaveChannel(resample.inpcm, inpcm, innum, channelidx);
  }

  /** Fills the first six delay slots with the last six samples of one channel. */
  method SaveChannel(dst: array<Sample>, src: array<Sample>, innum: nat, channelidx: nat)
    requires dst != src && DELAY <= dst.Length && DELAY <= innum && 2 * innum <= src.Length && channelidx < 2
    modifies dst
    ensures dst[..DELAY] == Newest(Channel(src[..2 * innum], channelidx)) && dst[DELAY..] == old(dst[DELAY..])
  {
    hide Channel, Newest;
    ghost var xs := src[..2 * innum];
    ghost var newest := Newest(Channel(xs, channelidx));
    for i := 0 to DELAY
      invariant forall j :: 0 <= j < i ==> dst[j] == newest[j]
      invariant forall j :: DELAY <= j < dst.Length ==> dst[j] == old(dst[j])
    {
      NewestAt(xs, channelidx, i);
      dst[i] := src[(innum - DELAY) * 2 + channelidx + 2 * i];
    }
  }

  lemma {:induction false} NewestAt(xs: seq<Sample>, ch: nat, i: nat)
    requires ch < 2 && |xs| % 2 == 0 && 2 * DELAY <= |xs| && i < DELAY
    ensures Newest(Channel(xs, ch))[i] == xs[|xs| - 2 * DELAY + ch + 2 * i]
  {
    var n := |xs| / 2;
    assert Newest(Channel(xs, ch))[i] == Channel(xs, ch)[n - DELAY + i] == xs[2 * (n - DELAY + i) + ch];
  }

  /** Runs one sample through the two cells at `k` and `k + 1`. */
  method RejectSample(hpMem: array<real>, k: nat, coef: real, tiny: real, x: Sample) returns (out: Sample)
    requires k + 1 < hpMem.Length
    modifies hpMem
    ensures var f, h := Filter(coef, tiny), Memory(old(hpMem[k]), old(hpMem[k + 1]));
            && Memory(hpMem[k], hpMem[k + 1]) == f.Next(h, x as real)
            && out == Saturate(Trunc(f.Response(h, x as real)))
    ensures var value := Trunc(x as real - old(hpMem[k]) - old(hpMem[k + 1]));
            out == if value < -32768 then -32768 else if 32767 < value then 32767 else value
    ensures forall j :: 0 <= j < hpMem.Length && j != k && j != k + 1 ==> hpMem[j] == old(hpMem[j])
  {
    hide Trunc, Filter.Next, Filter.Response;
    ghost var h := Memory(hpMem[k], hpMem[k + 1]);
    // stage 1
    var tmp := x as real - hpMem[k];
    hpMem[k] := hpMem[k] + coef * (x as real - hpMem[k]) + tiny;
    // stage 2
    var y := tmp - hpMem[k + 1];
    hpMem[k + 1] := hpMem[k + 1] + coef * (tmp - hpMem[k + 1]) + tiny;
    StageIs(coef, tiny, h, x as real);
    var value := Trunc(y);
    if value > 32767 {
      value := 32767;
    }
    if value < -32768 {
      value := -32768;
    }
    out := value;
  }

  /** The two stages of one step, written out. */
  lemma {:induction false} StageIs(coef: real, tiny: real, h: Memory, x: real)
    ensures var f, tmp := Filter(coef, tiny), x - h.m0;
            && f.Next(h, x) == Memory(h.m0 + coef * tmp + tiny, h.m1 + coef * (tmp - h.m1) + tiny)
            && f.Response(h, x) == tmp - h.m1
  {
  }

  /** Filters the first `len` samples of `pcm` in place, which is how both callers use the source's routine. */
  method DcRejectMono(pcm: array<Sample>, cutoffHz: nat, hpMem: array<real>, len: nat, fs: nat, tiny: real)
    requires len <= pcm.Length && 2 <= hpMem.Length && 0 < fs
    modifies pcm, hpMem
    ensures var f := Filter(4.0 * cutoffHz as real / fs as real, tiny);
            var h, xs := Memory(old(hpMem[0]), old(hpMem[1])), old(pcm[..len]);
            pcm[..len] == f.Filtered(h, xs) && Memory(hpMem[0], hpMem[1]) == f.After(h, xs)
    ensures pcm[len..] == old(pcm[len..]) && hpMem[2..] == old(hpMem[2..])
  {
    hide Filter.After, Filter.Filtered, Filter.Next, Filter.Response, Trunc, Saturate;
    var coef := 4.0 * cutoffHz as real / fs as real;
    ghost var f, h, xs := Filter(coef, tiny), Memory(hpMem[0], hpMem[1]), pcm[..len];
    f.AfterNothing(h);
    assert xs[..0] == [];
    for i := 0 to len
      invariant forall j :: i <= j < len ==> pcm[j] == xs[j]
      invariant forall j :: 0 <= j < i ==> pcm[j] == f.Filtered(h, xs)[j]
      invariant forall j :: len <= j < pcm.Length ==> pcm[j] == old(pcm[j])
      invariant forall j :: 2 <= j < hpMem.Length ==> hpMem[j] == old(hpMem[j])
      invariant Memory(hpMem[0], hpMem[1]) == f.After(h, xs[..i])
    {
      f.OneMore(h, xs, i);
      var value := RejectSample(hpMem, 0, coef, tiny, pcm[i]);
      pcm[i] := value;
    }
    assert xs[..len] == xs;
  }

  /** Filters both channels of `len` interleaved samples in place, one channel after the other. */
  method DcRejectDual(pcm: array<Sample>, cutoffHz: nat, hpMem: array<real>, len: nat, fs: nat, tiny: real)
    requires len <= pcm.Length && hpMem.Length == 4 && 0 < fs && len % 2 == 0
    modifies pcm, hpMem
    ensures forall ch :: 0 <= ch < 2 ==>
              var f := Filter(4.0 * cutoffHz as real / fs as real, tiny);
              var h, xs := Memory(old(hpMem[2 * ch]), old(hpMem[2 * ch + 1])), Channel(old(pcm[..len]), ch);
              && Channel(pcm[..len], ch) == f.Filtered(h, xs)
              && Memory(hpMem[2 * ch], hpMem[2 * ch + 1]) == f.After(h, xs)
    ensures pcm[len..] == old(pcm[len..])
  {
    hide Filter.After, Filter.Filtered;
    var coef := 4.0 * cutoffHz as real / fs as real;
    RejectChannel(pcm, coef, hpMem, len, tiny, 0);
    RejectChannel(pcm, coef, hpMem, len, tiny, 1);
  }

  /** The loop over one channel. */
  method RejectChannel(pcm: array<Sample>, coef: real, hpMem: array<real>, len: nat, tiny: real, ch: nat)
    requires len <= pcm.Length && hpMem.Length == 4 && len % 2 == 0 && ch < 2
    modifies pcm, hpMem
    ensures var f := Filter(coef, tiny);
            var h, xs := Memory(old(hpMem[2 * ch]), old(hpMem[2 * ch + 1])), old(Channel(pcm[..len], ch));
            && Channel(pcm[..len], ch) == f.Filtered(h, xs)
            && Memory(hpMem[2 * ch], hpMem[2 * ch + 1]) == f.After(h, xs)
    ensures pcm[len..] == old(pcm[len..]) && Channel(pcm[..len], 1 - ch) == old(Channel(pcm[..len], 1 - ch))
    ensures hpMem[2 * (1 - ch)] == old(hpMem[2 * (1 - ch)]) && hpMem[2 * (1 - ch) + 1] == old(hpMem[2 * (1 - ch) + 1])
  {
    hide Filter.After, Filter.Filtered, Filter.Next, Filter.Response, Trunc, Saturate, Channel;
    var other := 1 - ch;
    ghost var f, h := Filter(coef, tiny), Memory(hpMem[2 * ch], hpMem[2 * ch + 1]);
    ghost var xs, ys := Channel(pcm[..len], ch), Channel(pcm[..len], other);
    ghost var zs := f.Filtered(h, xs);
    f.AfterNothing(h);
    assert xs[..0] == [];
    var i := ch;
    ghost var k := 0;
    while i < len
      invariant i == 2 * k + ch && k <= |xs|
      invariant forall j :: k <= j < |xs| ==> pcm[2 * j + ch] == xs[j]
      invariant forall j :: 0 <= j < k ==> pcm[2 * j + ch] == zs[j]
      invariant forall j :: 0 <= j < |ys| ==> pcm[2 * j + other] == ys[j]
      invariant forall j :: len <= j < pcm.Length ==> pcm[j] == old(pcm[j])
      invariant hpMem[2 * other] == old(hpMem[2 * other]) && hpMem[2 * other + 1] == old(hpMem[2 * other + 1])
      invariant Memory(hpMem[2 * ch], hpMem[2 * ch + 1]) == f.After(h, xs[..k])
    {
      f.OneMore(h, xs, k);
      var value := RejectSample(hpMem, 2 * ch, coef, tiny, pcm[i]);
      pcm[i] := value;
      i := i + 2;
      k := k + 1;
    }
    assert xs[..k] == xs;
  }

  /** The counters after `Wrap`. */
  function Counted(c: Clock, innum: nat, outnum: nat): State {
    Wrap(c, State([], innum, outnum))
  }

  /** Adds a call's counts to the running counters, less one second once both have passed it. */
  method Count(c: Clock, innum: nat, outnum: nat, resample: Resample)
    modifies resample
    ensures var st := Counted(c, old(resample.innum) + innum, old(resample.outnum) + outnum);
            resample.innum == st.innum && resample.outnum == st.outnum
  {
    resample.innum := resample.innum + innum;
    resample.outnum := resample.outnum + outnum;
    if resample.innum >= c.srcrate && resample.outnum >= c.tarrate {
      resample.innum := resample.innum - c.srcrate;
      resample.outnum := resample.outnum - c.tarrate;
    }
  }

  /** A call's outputs, the newest samples and the counters make one step of the converter. */
  lemma {:induction false} AdvanceIs(c: Clock, st: State, chunk: seq<Sample>, out: seq<Sample>, st': State)
    requires c.Sound() && Ready(c, st) && DELAY <= |chunk|
    requires out == Emit(c, st.delay, chunk, st.innum, st.outnum)
    requires st' == Counted(c, st.innum + |chunk|, st.outnum + |out|).(delay := Newest(chunk))
    ensures (st', out) == Advance(c, st, chunk)
  {
  }

  /** The converter's step and then the filter's make one step of the pipeline. */
  lemma {:induction false} ProcessIs(c: Clock, tiny: real, line: Line, chunk: seq<Sample>, raw: seq<Sample>,
      line': Line, out: seq<Sample>)
    requires c.Sound() && Ready(c, line.st) && DELAY <= |chunk| && 0 < c.tarrate
    requires (line'.st, raw) == Advance(c, line.st, chunk)
    requires var f := Filter(4.0 * 3 as real / c.tarrate as real, tiny);
             out == f.Filtered(line.hp, raw) && line'.hp == f.After(line.hp, raw)
    ensures (line', out) == Process(c, tiny, line, chunk)
  {
  }

  method ResamplingProcessMono(inpcm: array<Sample>, outpcm: array<Sample>, c: Clock, innum: nat, resample: Resample,
                               tiny: real) returns (outnum: nat)
    requires resample.Valid() && c.Sound() && Ready(c, resample.Mono())
    requires DELAY <= innum <= inpcm.Length
    requires inpcm != outpcm && resample.inpcm != inpcm && resample.inpcm != outpcm
    requires Owed(c, resample.innum + innum, resample.outnum) <= outpcm.Length
    modifies resample, resample.inpcm, resample.hpMem, outpcm
    ensures outnum <= outpcm.Length && outpcm[outnum..] == old(outpcm[outnum..])
    ensures (resample.MonoLine(), outpcm[..outnum]) == old(resample.MonoStep(c, tiny, inpcm, innum))
  {
    hide Emit, Owed, Tolerant, Clock.Sound, Counted, Advance, Process, Filter.After, Filter.Filtered;
    c.HasRates();
    ghost var line, chunk := resample.MonoLine(), inpcm[..innum];
    outnum := ResamplingMono(inpcm, outpcm, c, innum, resample);
    ghost var raw, d := outpcm[..outnum], resample.inpcm[..DELAY];
    Count(c, innum, outnum, resample);
    AdvanceIs(c, line.st, chunk, raw, State(d, resample.innum, resample.outnum));
    DcRejectMono(outpcm, 3, resample.hpMem, outnum, c.tarrate, tiny);
    ProcessIs(c, tiny, line, chunk, raw, resample.MonoLine(), outpcm[..outnum]);
  }

  method ResamplingProcessDual(inpcm: array<Sample>, outpcm: array<Sample>, c: Clock, innum: nat, resample: Resample,
                               tiny: real) returns (outnum: nat)
    requires resample.Valid() && c.Sound() && Ready(c, resample.Stereo(0))
    requires 2 * DELAY <= innum <= inpcm.Length
    requires inpcm != outpcm && resample.inpcm != inpcm && resample.inpcm != outpcm
    requires 2 * Owed(c, resample.innum + innum / 2, resample.outnum) <= outpcm.Length
    modifies resample, resample.inpcm, resample.hpMem, outpcm
    ensures outnum <= outpcm.Length && outnum % 2 == 0 && outpcm[outnum..] == old(outpcm[outnum..])
    ensures (resample.StereoLine(0), Channel(outpcm[..outnum], 0))
         == old(resample.StereoStep(c, tiny, inpcm, innum / 2, 0))
    ensures (resample.StereoLine(1), Channel(outpcm[..outnum], 1))
         == old(resample.StereoStep(c, tiny, inpcm, innum / 2, 1))
  {
    hide Emit, Owed, Tolerant, Clock.Sound, Advance, Process, Filter.After, Filter.Filtered, Channel;
    c.HasRates();
    var frames := innum / 2;
    ghost var whole, line0, line1 := inpcm[..2 * frames], resample.StereoLine(0), resample.StereoLine(1);
    outnum := ConvertDual(inpcm, outpcm, c, frames, resample);
    outnum := outnum * 2;
    ghost var raw := outpcm[..outnum];
    DcRejectDual(outpcm, 3, resample.hpMem, outnum, c.tarrate, tiny);
    ghost var y := outpcm[..outnum];
    ProcessIs(c, tiny, line0, Channel(whole, 0), Channel(raw, 0), resample.StereoLine(0), Channel(y, 0));
    ProcessIs(c, tiny, line1, Channel(whole, 1), Channel(raw, 1), resample.StereoLine(1), Channel(y, 1));
  }

  /** The converter and its counters, before the filter. */
  method ConvertDual(inpcm: array<Sample>, outpcm: array<Sample>, c: Clock, frames: nat, resample: Resample)
      returns (outnum: nat)
    requires resample.Valid() && c.Sound() && Ready(c, resample.Stereo(0))
    requires DELAY <= frames && 2 * frames <= inpcm.Length
    requires inpcm != outpcm && resample.inpcm != inpcm && resample.inpcm != outpcm
    requires 2 * Owed(c, resample.innum + frames, resample.outnum) <= outpcm.Length
    modifies resample, resample.inpcm, outpcm
    ensures 2 * outnum <= outpcm.Length && outpcm[2 * outnum..] == old(outpcm[2 * outnum..])
    ensures (resample.Stereo(0), Channel(outpcm[..2 * outnum], 0))
         == Advance(c, old(resample.Stereo(0)), Channel(inpcm[..2 * frames], 0))
    ensures (resample.Stereo(1), Channel(outpcm[..2 * outnum], 1))
         == Advance(c, old(resample.Stereo(1)), Channel(inpcm[..2 * frames], 1))
  {
    hide Emit, Owed, Tolerant, Clock.Sound, Advance, Channel, Counted;
    ghost var st0, st1 := resample.Stereo(0), resample.Stereo(1);
    ghost var x0, x1 := Channel(inpcm[..2 * frames], 0), Channel(inpcm[..2 * frames], 1);
    outnum := ResamplingDual(inpcm, outpcm, c, frames, resample);
    ghost var d, y := resample.inpcm[..], outpcm[..2 * outnum];
    ghost var y0, y1 := Channel(y, 0), Channel(y, 1);
    assert y0 == Emit(c, st0.delay, x0, st0.innum, st0.outnum) && Channel(d, 0) == Newest(x0);
    assert y1 == Emit(c, st1.delay, x1, st1.innum, st1.outnum) && Channel(d, 1) == Newest(x1);
    Count(c, frames, outnum, resample);
    assert resample.inpcm[..] == d && outpcm[..2 * outnum] == y;
    AdvanceIs(c, st0, x0, y0, State(Channel(d, 0), resample.innum, resample.outnum));
    AdvanceIs(c, st1, x1, y1, State(Channel(d, 1), resample.innum, resample.outnum));
  }

  method ResamplingProcessDualDownCh(inpcm: array<Sample>, channelidx: nat, outpcm: array<Sample>, c: Clock,
                                     innum: nat, resample: Resample, tiny: real) returns (outnum: nat)
    requires resample.Valid() && c.Sound() && Ready(c, resample.Mono()) && channelidx < 2
    requires 2 * DELAY <= innum <= inpcm.Length
    requires inpcm != outpcm && resample.inpcm != inpcm && resample.inpcm != outpcm
    requires Owed(c, resample.innum + innum / 2, resample.outnum) <= outpcm.Length
    modifies resample, resample.inpcm, resample.hpMem, outpcm
    ensures outnum <= outpcm.Length && outpcm[outnum..] == old(outpcm[outnum..])
    ensures (resample.MonoLine(), outpcm[..outnum])
         == old(resample.PickedStep(c, tiny, inpcm, innum / 2, channelidx))
  {
    hide Emit, Owed, Tolerant, Clock.Sound, Counted, Advance, Process, Filter.After, Filter.Filtered, Channel;
    c.HasRates();
    var frames := innum / 2;
    ghost var line, chunk := resample.MonoLine(), Channel(inpcm[..2 * frames], channelidx);
    outnum := ResamplingDualDownCh(inpcm, channelidx, outpcm, c, frames, resample);
    ghost var raw, d := outpcm[..outnum], resample.inpcm[..DELAY];
    Count(c, frames, outnum, resample);
    AdvanceIs(c, line.st, chunk, raw, State(d, resample.innum, resample.outnum));
    DcRejectMono(outpcm, 3, resample.hpMem, outnum, c.tarrate, tiny);
    ProcessIs(c, tiny, line, chunk, raw, resample.MonoLine(), outpcm[..outnum]);
  }

  /** Converts one call's samples, mono or interleaved; equal rates only copy. */
  method ResamplingProcess(inpcm: array<Sample>, outpcm: array<Sample>, c: Clock, innum: nat, channel: nat,
                           resample: Resample, tiny: real) returns (outnum: nat)
    requires resample.Valid() && c.Sound() && 0 < channel && innum <= inpcm.Length
    requires inpcm != outpcm && resample.inpcm != inpcm && resample.inpcm != outpcm
    requires innum % channel == 0 && c.srcrate == c.tarrate ==> innum <= outpcm.Length
    requires innum % channel == 0 && c.srcrate != c.tarrate && channel == 1 ==>
               DELAY <= innum && Ready(c, resample.Mono())
               && Owed(c, resample.innum + innum, resample.outnum) <= outpcm.Length
    requires innum % channel == 0 && c.srcrate != c.tarrate && channel != 1 ==>
               2 * DELAY <= innum && Ready(c, resample.Stereo(0))
               && 2 * Owed(c, resample.innum + innum / 2, resample.outnum) <= outpcm.Length
    modifies resample, resample.inpcm, resample.hpMem, outpcm
    ensures outnum <= outpcm.Length && outpcm[outnum..] == old(outpcm[outnum..])
    ensures innum % channel != 0 ==> outnum == 0
    ensures innum % channel != 0 || c.srcrate == c.tarrate ==>
              resample.MonoLine() == old(resample.MonoLine()) && resample.inpcm[..] == old(resample.inpcm[..])
              && resample.hpMem[..] == old(resample.hpMem[..])
    ensures innum % channel == 0 && c.srcrate == c.tarrate ==> outpcm[..outnum] == inpcm[..innum]
    ensures innum % channel == 0 && c.srcrate != c.tarrate && channel == 1 ==>
              (resample.MonoLine(), outpcm[..outnum]) == old(resample.MonoStep(c, tiny, inpcm, innum))
    ensures innum % channel == 0 && c.srcrate != c.tarrate && channel != 1 ==>
              && outnum % 2 == 0
              && (resample.StereoLine(0), Channel(outpcm[..outnum], 0))
                 == old(resample.StereoStep(c, tiny, inpcm, innum / 2, 0))
              && (resample.StereoLine(1), Channel(outpcm[..outnum], 1))
                 == old(resample.StereoStep(c, tiny, inpcm, innum / 2, 1))
  {
    hide Emit, Owed, Tolerant, Clock.Sound, Process, Channel;
    if innum % channel != 0 {
      return 0;
    }
    if c.srcrate == c.tarrate {
      Memcpy(outpcm, inpcm, 0, innum);
      outnum := innum;
    } else if channel == 1 {
      outnum := ResamplingProcessMono(inpcm, outpcm, c, innum, resample, tiny);
    } else {
      outnum := ResamplingProcessDual(inpcm, outpcm, c, innum, resample, tiny);
    }
  }

  /** Every sample twice: one channel's samples as both channels'. */
  function Doubled(xs: seq<Sample>): (ys: seq<Sample>)
    ensures |ys| == 2 * |xs|
  {
    Interleave(xs, xs)
  }

  /** The samples from number `i` on are doubled, at the places of the doubled buffer, before `tail`. */
  ghost predicate DoubledFrom(a: seq<Sample>, xs: seq<Sample>, tail: seq<Sample>, i: nat) {
    |a| == 2 * |xs| + |tail| && i <= |xs| && a[..i] == xs[..i] && a[2 * i..] == Doubled(xs[i..]) + tail
  }

  /** Copies one channel to both, from the end so that nothing unread is overwritten. */
  method Duplicate(outpcm: array<Sample>, outnum: nat)
    requires 2 * outnum <= outpcm.Length
    modifies outpcm
    ensures outpcm[..2 * outnum] == Doubled(old(outpcm[..outnum])) && outpcm[2 * outnum..] == old(outpcm[2 * outnum..])
    ensures forall j :: 0 <= j < outnum ==> outpcm[2 * j] == outpcm[2 * j + 1] == old(outpcm[j])
  {
    hide DoubledFrom, Doubled;
    ghost var xs, tail := outpcm[..outnum], outpcm[2 * outnum..];
    var i := outnum - 1;
    NoneDoubled(outpcm[..], xs, tail);
    while i >= 0
      invariant -1 <= i < outnum && DoubledFrom(outpcm[..], xs, tail, i + 1)
    {
      ghost var was := outpcm[..];
      OneDoubled(was, xs, tail, i);
      outpcm[i * 2 + 1] := outpcm[i];
      outpcm[i * 2] := outpcm[i];
      assert outpcm[..] == was[2 * i + 1 := was[i]][2 * i := was[i]];
      i := i - 1;
    }
    AllDoubled(outpcm[..], xs, tail);
    assert outpcm[..2 * outnum] == outpcm[..][..2 * outnum] && outpcm[2 * outnum..] == outpcm[..][2 * outnum..];
    forall j | 0 <= j < outnum
      ensures outpcm[2 * j] == outpcm[2 * j + 1] == xs[j]
    {
      DoubledAt(xs, j);
      assert outpcm[2 * j] == outpcm[..2 * outnum][2 * j] && outpcm[2 * j + 1] == outpcm[..2 * outnum][2 * j + 1];
    }
  }

  lemma {:induction false} DoubledAt(xs: seq<Sample>, j: nat)
    requires j < |xs|
    ensures Doubled(xs)[2 * j] == Doubled(xs)[2 * j + 1] == xs[j]
  {
  }

  lemma {:induction false} NoneDoubled(a: seq<Sample>, xs: seq<Sample>, tail: seq<Sample>)
    requires 2 * |xs| <= |a| && xs == a[..|xs|] && tail == a[2 * |xs|..]
    ensures DoubledFrom(a, xs, tail, |xs|)
  {
    assert xs[|xs|..] == [];
    DoubledNothing();
  }

  lemma {:induction false} OneDoubled(a: seq<Sample>, xs: seq<Sample>, tail: seq<Sample>, i: nat)
    requires DoubledFrom(a, xs, tail, i + 1)
    ensures 2 * i + 1 < |a| && DoubledFrom(a[2 * i + 1 := a[i]][2 * i := a[i]], xs, tail, i)
  {
    hide Doubled;
    var b := a[2 * i + 1 := a[i]][2 * i := a[i]];
    assert a[i] == a[..i + 1][i] == xs[i];
    assert b[..i] == a[..i + 1][..i];
    assert b[2 * i..] == [xs[i], xs[i]] + a[2 * (i + 1)..];
    assert xs[i..] == [xs[i]] + xs[i + 1..];
    DoubledFirst(xs[i], xs[i + 1..]);
  }

  lemma {:induction false} AllDoubled(a: seq<Sample>, xs: seq<Sample>, tail: seq<Sample>)
    requires DoubledFrom(a, xs, tail, 0)
    ensures a[..2 * |xs|] == Doubled(xs) && a[2 * |xs|..] == tail
  {
    hide Doubled;
    assert xs[0..] == xs && a[0..] == a;
  }

  lemma {:induction false} DoubledNothing()
    ensures Doubled([]) == []
  {
  }

  lemma {:induction false} DoubledFirst(x: Sample, xs: seq<Sample>)
    ensures Doubled([x] + xs) == [x, x] + Doubled(xs)
  {
  }

  /** Converts mono to stereo; equal rates only copy. */
  method ResamplingProcessUpChannel(inpcm: array<Sample>, outpcm: array<Sample>, c: Clock, innum: nat,
                                    resample: Resample, tiny: real) returns (outnum: nat)
    requires resample.Valid() && c.Sound() && innum <= inpcm.Length
    requires inpcm != outpcm && resample.inpcm != inpcm && resample.inpcm != outpcm
    requires c.srcrate == c.tarrate ==> 2 * innum <= outpcm.Length
    requires c.srcrate != c.tarrate ==>
               DELAY <= innum && Ready(c, resample.Mono())
               && 2 * Owed(c, resample.innum + innum, resample.outnum) <= outpcm.Length
    modifies resample, resample.inpcm, resample.hpMem, outpcm
    ensures outnum <= outpcm.Length
    ensures c.srcrate == c.tarrate ==>
              outpcm[..outnum] == Doubled(inpcm[..innum]) && resample.MonoLine() == old(resample.MonoLine())
    ensures c.srcrate != c.tarrate ==>
              var (line, y) := old(resample.MonoStep(c, tiny, inpcm, innum));
              resample.MonoLine() == line && outpcm[..outnum] == Doubled(y)
  {
    hide Emit, Owed, Tolerant, Clock.Sound, Process, Doubled;
    if c.srcrate == c.tarrate {
      Memcpy(outpcm, inpcm, 0, innum);
      outnum := innum;
    } else {
      ProcessLength(c, tiny, resample.MonoLine(), inpcm[..innum]);
      outnum := ResamplingProcessMono(inpcm, outpcm, c, innum, resample, tiny);
    }
    Duplicate(outpcm, outnum);
    outnum := outnum * 2;
  }

  /** Converts one channel of stereo to mono; equal rates only pick it out. */
  method ResamplingProcessDownChannel(inpcm: array<Sample>, outpcm: array<Sample>, c: Clock, innum: nat,
                                      channelidx: nat, resample: Resample, tiny: real) returns (outnum: nat)
    requires resample.Valid() && c.Sound() && innum <= inpcm.Length && channelidx < 2
    requires inpcm != outpcm && resample.inpcm != inpcm && resample.inpcm != outpcm
    requires innum % 2 == 0 && c.srcrate == c.tarrate ==> innum / 2 <= outpcm.Length
    requires innum % 2 == 0 && c.srcrate != c.tarrate ==>
               2 * DELAY <= innum && Ready(c, resample.Mono())
               && Owed(c, resample.innum + innum / 2, resample.outnum) <= outpcm.Length
    modifies resample, resample.inpcm, resample.hpMem, outpcm
    ensures outnum <= outpcm.Length
    ensures innum % 2 != 0 ==> outnum == 0
    ensures innum % 2 != 0 || c.srcrate == c.tarrate ==> resample.MonoLine() == old(resample.MonoLine())
    ensures innum % 2 == 0 && c.srcrate == c.tarrate ==> outpcm[..outnum] == Channel(inpcm[..innum], channelidx)
    ensures innum % 2 == 0 && c.srcrate != c.tarrate ==>
              (resample.MonoLine(), outpcm[..outnum])
              == old(resample.PickedStep(c, tiny, inpcm, innum / 2, channelidx))
  {
    hide Emit, Owed, Tolerant, Clock.Sound, Process, Channel;
    if innum % 2 != 0 {
      return 0;
    }
    if c.srcrate == c.tarrate {
      outnum := 0;
      var i := channelidx;
      ghost var chunk := Channel(inpcm[..innum], channelidx);
      while i < innum
        invariant i == 2 * outnum + channelidx && outnum <= innum / 2
        invariant forall j :: 0 <= j < outnum ==> outpcm[j] == chunk[j]
        modifies outpcm
      {
        outpcm[outnum] := inpcm[i];
        outnum := outnum + 1;
        i := i + 2;
      }
    } else {
      outnum := ResamplingProcessDualDownCh(inpcm, channelidx, outpcm, c, innum, resample, tiny);
    }
  }
}
