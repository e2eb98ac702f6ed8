/** The playback path: resample to 48 kHz, duplicate mono, widen to 32-bit words, send. */
module Player {
  import opened Basics
  import opened Pcm
  import opened Position
  import opened Resampler
  import opened Streaming
  import opened DcReject
  import opened Pipeline
  import opened AudioResample

  const OUTPUT_RATE: nat := 48000

  /** `CODEC_OUTPUT_BUFSIZE` bytes, as samples. */
  const BUFFER_SAMPLES: nat := 12288

  /** `c` gives the machine's positions at source rate `rate`. */
  ghost predicate Serves(c: Clock, rate: nat) {
    c.Sound() && c.slack <= 2.5 && c.srcrate == rate && c.tarrate == OUTPUT_RATE
  }

  /** The samples one write puts into the buffer, at most. */
  function Demand(c: Clock, channel: nat, samples: nat): nat
    requires 0 < c.srcrate && 0.0 <= c.slack
  {
    if c.srcrate == OUTPUT_RATE then (if channel == 1 then 2 * samples else samples)
    else 2 * Most(c, if channel == 1 then samples else samples / 2)
  }

  /** After writing `w` in mono the line is the run's, and what was heard is the run's output, doubled. */
  ghost predicate MonoAt(c: Clock, tiny: real, w: seq<seq<Sample>>, line: Line, h: seq<Sample>)
    requires c.Sound() && c.slack <= 2.5 && Chunked(w)
  {
    (line, h) == var (l, y) := ProcessRun(c, tiny, w); (l, Doubled(y))
  }

  ghost predicate StereoAt(c: Clock, tiny: real, w: seq<seq<Sample>>, lines: (Line, Line), h: seq<Sample>)
    requires c.Sound() && c.slack <= 2.5 && StereoChunked(w)
  {
    (lines, h) == StereoRun(c, tiny, w)
  }

  lemma {:induction false} MonoStarts(c: Clock, tiny: real, w: seq<seq<Sample>>, line: Line, h: seq<Sample>,
      samples: nat)
    requires c.Sound() && c.slack <= 2.5 && Chunked(w) && MonoAt(c, tiny, w, line, h)
    ensures 0 < c.srcrate && 0.0 <= c.slack
    ensures Ready(c, line.st) && Owed(c, line.st.innum + samples, line.st.outnum) <= Most(c, samples)
  {
    hide *;
    MonoIsRun(c, tiny, w, line, h);
    RunCallBound(c, w, samples);
  }

  lemma {:induction false} MonoIsRun(c: Clock, tiny: real, w: seq<seq<Sample>>, line: Line, h: seq<Sample>)
    requires c.Sound() && c.slack <= 2.5 && Chunked(w) && MonoAt(c, tiny, w, line, h)
    ensures Ready(c, line.st) && line.st == Run(c, w).0
  {
    hide Clock.Sound, ProcessRun, Run, Chunked, Ready;
  }

  lemma {:induction false} MonoAdvances(c: Clock, tiny: real, w: seq<seq<Sample>>, line: Line, h: seq<Sample>,
      chunk: seq<Sample>)
    requires c.Sound() && c.slack <= 2.5 && Chunked(w) && MonoAt(c, tiny, w, line, h) && DELAY <= |chunk|
    ensures Ready(c, line.st) && Chunked(w + [chunk])
    ensures var (line', y) := Process(c, tiny, line, chunk);
            MonoAt(c, tiny, w + [chunk], line', h + Doubled(y))
  {
    hide Process, ProcessRun, Doubled, Ready, Clock.Sound, Owed, Most;
    MonoStarts(c, tiny, w, line, h, |chunk|);
    assert (w + [chunk])[..|w|] == w;
    ProcessOneMore(c, tiny, w, chunk);
    DoubledConcat(ProcessRun(c, tiny, w).1, Process(c, tiny, line, chunk).1);
  }

  lemma {:induction false} DoubledConcat(a: seq<Sample>, b: seq<Sample>)
    ensures Doubled(a + b) == Doubled(a) + Doubled(b)
  {
    InterleaveConcat(a, a, b, b);
  }

  lemma {:induction false} StereoStarts(c: Clock, tiny: real, w: seq<seq<Sample>>, lines: (Line, Line),
      h: seq<Sample>, frames: nat)
    requires c.Sound() && c.slack <= 2.5 && StereoChunked(w) && StereoAt(c, tiny, w, lines, h)
    ensures 0 < c.srcrate && 0.0 <= c.slack
    ensures Ready(c, lines.0.st) && Ready(c, lines.1.st) && InStep(lines)
    ensures Owed(c, lines.0.st.innum + frames, lines.0.st.outnum) <= Most(c, frames)
  {
    hide *;
    LeftIsRun(c, tiny, w, lines, h);
    RunCallBound(c, Picked(w, 0), frames);
  }

  lemma {:induction false} LeftIsRun(c: Clock, tiny: real, w: seq<seq<Sample>>, lines: (Line, Line), h: seq<Sample>)
    requires c.Sound() && c.slack <= 2.5 && StereoChunked(w) && StereoAt(c, tiny, w, lines, h)
    ensures Ready(c, lines.0.st) && Ready(c, lines.1.st) && InStep(lines)
    ensures Chunked(Picked(w, 0)) && lines.0.st == Run(c, Picked(w, 0)).0
  {
    hide Owed, Clock.Sound, StereoRun, ProcessRun, Run, Picked, Chunked, StereoChunked, Interleave, Ready, InStep;
    StereoIsTwoMonos(c, tiny, w);
  }

  lemma {:induction false} StereoAdvances(c: Clock, tiny: real, w: seq<seq<Sample>>, lines: (Line, Line),
      h: seq<Sample>,
                       chunk: seq<Sample>)
    requires c.Sound() && c.slack <= 2.5 && StereoChunked(w) && StereoAt(c, tiny, w, lines, h) && 2 * DELAY <= |chunk|
    ensures Ready(c, lines.0.st) && Ready(c, lines.1.st) && StereoChunked(w + [chunk])
    ensures var (l, y) := Process(c, tiny, lines.0, Channel(chunk, 0));
            var (r, z) := Process(c, tiny, lines.1, Channel(chunk, 1));
            |y| == |z| && StereoAt(c, tiny, w + [chunk], (l, r), h + Interleave(y, z))
  {
    hide StereoRun, Process, Ready, Clock.Sound, Channel, Interleave, Owed, Most;
    StereoStarts(c, tiny, w, lines, h, 0);
    assert (w + [chunk])[..|w|] == w;
    StereoStep(c, tiny, w + [chunk]);
  }

  class Dac {
    const tiny: real
    /** The machine's positions, for each source rate. */
    const clock: nat -> Clock
    const resample: Resample
    var channel: nat
    var sampleRate: nat
    var bitsPerSample: nat
    var outputBuf16: array?<Sample>
    var outputBuf32: array?<Sample>
    /** Blocks handed to the I2S driver. */
    ghost var sent: seq<seq<Sample>>
    /** Input chunks accepted, and what was heard of them, since playing started. */
    ghost var written: seq<seq<Sample>>
    ghost var heard: seq<Sample>

    ghost predicate Valid()
      reads this`outputBuf16, this`outputBuf32
    {
      && resample.Valid()
      && (outputBuf16 != null ==>
            outputBuf16.Length == BUFFER_SAMPLES && outputBuf16 != resample.inpcm && outputBuf16 != outputBuf32)
      && (outputBuf32 != null ==> outputBuf32.Length == 2 * BUFFER_SAMPLES && outputBuf32 != resample.inpcm)
    }

    /** Both buffers are allocated and the channel count is one the path supports. */
    predicate Playable()
      reads this`outputBuf16, this`outputBuf32, this`channel
    {
      outputBuf16 != null && outputBuf32 != null && (channel == 1 || channel == 2)
    }

    /** A write of `samples` samples stays inside the buffers and gives the converter its minimum. */
    predicate Fits(samples: nat)
      reads this`channel, this`sampleRate
      requires 0 < clock(sampleRate).srcrate && 0.0 <= clock(sampleRate).slack
    {
      (channel == 2 && samples % 2 != 0)
      || (Demand(clock(sampleRate), channel, samples) <= BUFFER_SAMPLES
          && (sampleRate != OUTPUT_RATE ==> channel * DELAY <= samples))
    }

    /** Having written `w` and heard `h`: what was heard is what the pipeline makes of what was written. */
    ghost predicate Session(w: seq<seq<Sample>>, h: seq<Sample>)
      reads this`channel, this`sampleRate, resample, resample.inpcm, resample.hpMem
    {
      && resample.Valid() && (channel == 1 || channel == 2) && Serves(clock(sampleRate), sampleRate)
      && if sampleRate == OUTPUT_RATE then
           h == if channel == 1 then Doubled(Flatten(w)) else Flatten(w)
         else if channel == 1 then
           Chunked(w) && MonoAt(clock(sampleRate), tiny, w, resample.MonoLine(), h)
         else
           StereoChunked(w) && WholeFrames(w)
           && StereoAt(clock(sampleRate), tiny, w, (resample.StereoLine(0), resample.StereoLine(1)), h)
    }

    ghost predicate InSession()
      reads this, resample, resample.inpcm, resample.hpMem
    {
      Valid() && Session(written, heard)
    }

    constructor (tiny: real, clock: nat -> Clock)
      ensures Valid() && outputBuf16 == null && outputBuf32 == null && sent == []
      ensures this.tiny == tiny && this.clock == clock
      ensures fresh(resample) && fresh(resample.inpcm) && fresh(resample.hpMem)
    {
      this.tiny, this.clock := tiny, clock;
      var r := new Resample();
      resample := r;
      channel, sampleRate, bitsPerSample := 1, 0, 0;
      outputBuf16, outputBuf32 := null, null;
      sent, written, heard := [], [], [];
    }

    /** Starts the codec and allocates the two buffers, each once; `codecInit` is what the codec's start
        answers, `room16` and `room32` whether the heap has room. */
    method LoadDriver(codecInit: int, room16: bool, room32: bool) returns (ret: int)
      requires Valid()
      modifies this`outputBuf16, this`outputBuf32
      ensures Valid()
      ensures outputBuf16 == old(outputBuf16) || (old(outputBuf16) == null && fresh(outputBuf16))
      ensures outputBuf32 == old(outputBuf32) || (old(outputBuf32) == null && fresh(outputBuf32))
      ensures outputBuf16 != null <==> old(outputBuf16) != null || (codecInit == 0 && room16)
      ensures outputBuf32 != null <==> old(outputBuf32) != null || (codecInit == 0 && outputBuf16 != null && room32)
      ensures ret == if codecInit != 0 then codecInit else if outputBuf16 != null && outputBuf32 != null then 0 else -1
      ensures outputBuf16 != null ==> outputBuf16.Length == 12288
      ensures outputBuf32 != null ==> outputBuf32.Length == 24576
    {
      ret := codecInit;
      if ret != 0 {
        return;
      }
      if outputBuf16 == null {
        if !room16 {
          return -1;
        }
        outputBuf16 := new Sample[BUFFER_SAMPLES];
      }
      if outputBuf32 == null {
        if !room32 {
          return -1;
        }
        outputBuf32 := new Sample[2 * BUFFER_SAMPLES];
      }
    }

    method StartPlay(channel: nat, sampleRate: nat, bitsPerSample: nat)
      requires Valid()
      modifies this, resample, resample.inpcm, resample.hpMem
      ensures Valid() && this.channel == channel && this.sampleRate == sampleRate
      ensures this.bitsPerSample == bitsPerSample && resample.MonoLine() == REST
      ensures outputBuf16 == old(outputBuf16) && outputBuf32 == old(outputBuf32) && sent == old(sent)
      ensures written == [] && heard == []
      ensures Serves(clock(sampleRate), sampleRate) && (channel == 1 || channel == 2) ==> InSession()
    {
      this.channel := channel;
      this.sampleRate := sampleRate;
      this.bitsPerSample := bitsPerSample;
      resample.Clear();
      written, heard := [], [];
    }

    /** Moves each sample to the high half of its word, the second of the word's two places; the low
        halves keep whatever they held. */
    method Widen(outputSize: nat)
      requires Valid() && outputBuf16 != null && outputBuf32 != null && outputSize <= BUFFER_SAMPLES
      modifies outputBuf32
      ensures forall j :: 0 <= j < outputSize ==> outputBuf32[2 * j + 1] == outputBuf16[j]
      ensures forall j :: 0 <= j < outputSize ==> outputBuf32[2 * j] == old(outputBuf32[2 * j])
      ensures outputBuf32[2 * outputSize..] == old(outputBuf32[2 * outputSize..])
    {
      for i := 0 to outputSize
        invariant forall j :: 0 <= j < i ==> outputBuf32[2 * j + 1] == outputBuf16[j]
        invariant forall j :: 0 <= j < outputSize ==> outputBuf32[2 * j] == old(outputBuf32[2 * j])
        invariant forall p :: 2 * outputSize <= p < outputBuf32.Length ==> outputBuf32[p] == old(outputBuf32[p])
      {
        outputBuf32[2 * i + 1] := outputBuf16[i];
      }
    }

    /** One channel: resampled, filtered, and doubled into the 16-bit buffer. */
    method ConvertMono(buf: array<Sample>, samples: nat) returns (outputSize: nat)
      requires InSession() && Playable() && channel == 1 && samples <= buf.Length && Fits(samples)
      requires buf != outputBuf16 && buf != resample.inpcm
      modifies resample, resample.inpcm, resample.hpMem, outputBuf16
      ensures outputSize <= BUFFER_SAMPLES
      ensures Session(written + [old(buf[..samples])], heard + outputBuf16[..outputSize])
    {
      hide Process, ProcessRun, Owed, Ready, MonoAt, Doubled, Clock.Sound, Emit, Most, Channel, Flatten;
      var c := clock(sampleRate);
      ghost var chunk, line := buf[..samples], resample.MonoLine();
      if sampleRate == OUTPUT_RATE {
        FlattenOneMore(written, chunk);
        DoubledConcat(Flatten(written), chunk);
      } else {
        MonoStarts(c, tiny, written, line, heard, samples);
        MonoAdvances(c, tiny, written, line, heard, chunk);
      }
      outputSize := ResamplingProcessUpChannel(buf, outputBuf16, c, samples, resample, tiny);
    }

    /** Two channels: resampled and filtered in the 16-bit buffer; an odd sample count is refused. */
    method ConvertStereo(buf: array<Sample>, samples: nat) returns (outputSize: nat)
      requires InSession() && Playable() && channel == 2 && samples <= buf.Length && Fits(samples)
      requires buf != outputBuf16 && buf != resample.inpcm
      modifies resample, resample.inpcm, resample.hpMem, outputBuf16
      ensures outputSize <= BUFFER_SAMPLES
      ensures samples % 2 != 0 ==> outputSize == 0 && Session(written, heard)
      ensures samples % 2 == 0 ==> Session(written + [old(buf[..samples])], heard + outputBuf16[..outputSize])
    {
      hide Process, StereoRun, Owed, Ready, StereoAt, Clock.Sound, Emit, Most, Channel, Interleave, Flatten;
      var c := clock(sampleRate);
      ghost var chunk, lines := buf[..samples], (resample.StereoLine(0), resample.StereoLine(1));
      if samples % 2 == 0 {
        if sampleRate == OUTPUT_RATE {
          FlattenOneMore(written, chunk);
        } else {
          StereoStarts(c, tiny, written, lines, heard, samples / 2);
          StereoAdvances(c, tiny, written, lines, heard, chunk);
          assert buf[..2 * (samples / 2)] == chunk;
        }
      }
      outputSize := ResamplingProcess(buf, outputBuf16, c, samples, 2, resample, tiny);
      if samples % 2 == 0 && sampleRate != OUTPUT_RATE {
        ghost var y := outputBuf16[..outputSize];
        ChannelsDetermine(y, Channel(y, 0), Channel(y, 1));
      }
    }

    /** Plays `size` bytes; `i2sResult` is what the I2S driver answers. */
    method Write(buf: array<Sample>, size: nat, i2sResult: int) returns (ret: int)
      requires Valid() && size / 2 <= buf.Length && buf != outputBuf16 && buf != resample.inpcm
      requires outputBuf16 != null && outputBuf32 != null && (channel == 1 || channel == 2) ==>
                 InSession() && Fits(size / 2)
      modifies this`sent, this`written, this`heard, resample, resample.inpcm, resample.hpMem, outputBuf16, outputBuf32
      ensures Valid()
      ensures outputBuf16 == null || outputBuf32 == null || (channel != 1 && channel != 2) ==>
                ret == 0 && sent == old(sent) && written == old(written) && heard == old(heard)
      ensures outputBuf16 != null && outputBuf32 != null && (channel == 1 || channel == 2) ==>
                && ret == i2sResult && InSession()
                && |sent| == |old(sent)| + 1 && sent[..|old(sent)|] == old(sent)
                && old(heard) <= heard && |sent[|old(sent)|]| == 2 * (|heard| - |old(heard)|)
                && (forall j :: 0 <= j < |heard| - |old(heard)| ==>
                      sent[|old(sent)|][2 * j + 1] == heard[|old(heard)| + j])
                && written == if channel == 2 && size / 2 % 2 != 0 then old(written)
                              else old(written) + [old(buf[..size / 2])]
    {
      hide Dac.Session, Demand, Dac.Fits;
      if !Playable() {
        return 0;
      }
      ghost var chunk := buf[..size / 2];
      var outputSize;
      if channel == 1 {
        outputSize := ConvertMono(buf, size / 2);
      } else {
        outputSize := ConvertStereo(buf, size / 2);
      }
      ghost var y := outputBuf16[..outputSize];
      ghost var w := if channel == 1 || size / 2 % 2 == 0 then written + [chunk] else written;
      assert Session(w, heard + y) by {
        if y == [] { assert heard + y == heard; }
      }
      Widen(outputSize);
      assert outputBuf16[..outputSize] == y;
      ret := i2sResult;
      sent := sent + [outputBuf32[..2 * outputSize]];
      written, heard := w, heard + y;
    }
  }

  /** What `Fits` asks of a write, for exact positions. */
  lemma {:induction false} FitsIff(dac: Dac, samples: nat)
    requires dac.sampleRate != 0 && dac.clock(dac.sampleRate) == ExactClock(dac.sampleRate, 48000)
    requires dac.channel == 1 || dac.channel == 2
    ensures dac.Fits(samples) <==>
            var frames := if dac.channel == 1 then samples else samples / 2;
            || (dac.channel == 2 && samples % 2 != 0)
            || (dac.sampleRate == 48000 && (if dac.channel == 1 then 2 * samples else samples) <= 12288)
            || (dac.sampleRate != 48000 && dac.channel * 6 <= samples
                && 2 * CeilDiv(48000 * frames, dac.sampleRate) <= 12288)
  {
    hide CeilDiv, Most;
    MostIsCeiling(dac.sampleRate, 48000, samples);
    MostIsCeiling(dac.sampleRate, 48000, samples / 2);
  }

  /** Every chunk holds as many left as right samples. */
  ghost predicate WholeFrames(chunks: seq<seq<Sample>>) {
    forall i :: 0 <= i < |chunks| ==> |chunks[i]| % 2 == 0
  }

  lemma {:induction false} ChannelConcat(a: seq<Sample>, b: seq<Sample>, ch: nat)
    requires ch < 2 && |a| % 2 == 0 && |b| % 2 == 0
    ensures Channel(a + b, ch) == Channel(a, ch) + Channel(b, ch)
  {
  }

  lemma {:induction false} FlattenPicked(chunks: seq<seq<Sample>>, ch: nat)
    requires ch < 2 && WholeFrames(chunks)
    ensures |Flatten(chunks)| % 2 == 0 && Flatten(Picked(chunks, ch)) == Channel(Flatten(chunks), ch)
    decreases |chunks|
  {
    if chunks != [] {
      hide Channel;
      var last := |chunks| - 1;
      FlattenPicked(chunks[..last], ch);
      ChannelConcat(Flatten(chunks[..last]), chunks[last], ch);
      FlattenOneMore(Picked(chunks[..last], ch), Channel(chunks[last], ch));
    }
  }

  /** Without rounding, whatever the write sizes, a mono session plays each sample of the filtered batch
      of the whole input, twice; at the output rate it plays each sample of the input itself. */
  lemma {:induction false} MonoPlaybackIsBatch(dac: Dac)
    requires dac.InSession() && dac.channel == 1
    requires dac.sampleRate != 48000 ==>
               dac.clock(dac.sampleRate) == ExactClock(dac.sampleRate, 48000)
    ensures dac.heard == Doubled(
                           if dac.sampleRate == 48000 then Flatten(dac.written)
                           else Reject(48000, dac.tiny).Filtered(ZERO,
                                  Batch(dac.sampleRate, 48000, Flatten(dac.written))))
  {
    if dac.sampleRate != OUTPUT_RATE {
      PipelineIsFilteredBatch(dac.sampleRate, OUTPUT_RATE, dac.tiny, dac.written);
    }
  }

  /** The same for each channel of a stereo session. */
  lemma {:induction false} StereoPlaybackIsBatch(dac: Dac, ch: nat)
    requires dac.InSession() && dac.channel == 2 && ch < 2
    requires dac.sampleRate != 48000 ==>
               dac.clock(dac.sampleRate) == ExactClock(dac.sampleRate, 48000)
    ensures var x := Channel(Flatten(dac.written), ch);
            Channel(dac.heard, ch) == if dac.sampleRate == 48000 then x
                                      else Reject(48000, dac.tiny).Filtered(ZERO,
                                             Batch(dac.sampleRate, 48000, x))
  {
    if dac.sampleRate != OUTPUT_RATE {
      StereoAtIsBatch(dac.sampleRate, dac.tiny, dac.written, (dac.resample.StereoLine(0), dac.resample.StereoLine(1)),
                      dac.heard, ch);
    }
  }

  lemma {:induction false} StereoAtIsBatch(rate: nat, tiny: real, w: seq<seq<Sample>>, lines: (Line, Line),
      h: seq<Sample>, ch: nat)
    requires 0 < rate && StereoChunked(w) && WholeFrames(w) && ch < 2
    requires ExactClock(rate, OUTPUT_RATE).Sound() && StereoAt(ExactClock(rate, OUTPUT_RATE), tiny, w, lines, h)
    ensures Channel(h, ch) == Reject(OUTPUT_RATE, tiny).Filtered(ZERO,
                                Batch(rate, OUTPUT_RATE, Channel(Flatten(w), ch)))
  {
    hide Batch, Filter.Filtered, StereoRun, ProcessRun, Interleave, Channel, Flatten, Picked, WholeFrames, Reject;
    hide Clock.Sound, Chunked, StereoChunked;
    var c := ExactClock(rate, OUTPUT_RATE);
    StereoIsTwoMonos(c, tiny, w);
    FlattenPicked(w, ch);
    PipelineIsFilteredBatch(rate, OUTPUT_RATE, tiny, Picked(w, ch));
    ChannelOfInterleave(ProcessRun(c, tiny, Picked(w, 0)).1, ProcessRun(c, tiny, Picked(w, 1)).1);
  }

  /** How many outputs the second of two writes of 1024 samples yields, by the positions around its end. */
  lemma {:induction false} SecondWriteYields(c: Clock, tiny: real, first: seq<Sample>, second: seq<Sample>, m: nat)
    requires Serves(c, 8000) && |first| == |second| == 1024 && 0 < m
    requires c.Pos(6137) == 1022 && c.Pos(6138) == 1023
    requires c.Pos(6138 + m - 1) < 2047 <= c.Pos(6138 + m)
    ensures Chunked([first])
    ensures var line := ProcessRun(c, tiny, [first]).0;
            Ready(c, line.st) && |Doubled(Process(c, tiny, line, second).1)| == 2 * m
  {
    hide Owed, Clock.Sound, Clock.Pos, Filter.Filtered, Filter.After, ProcessRun, Emit;
    OwedIs(c, 1024, 0, 6138);
    OwedIs(c, 2048, 6138, m);
    assert [first][..0] == [];
    assert Run(c, []) == (START, []);
    var line := ProcessRun(c, tiny, [first]).0;
    assert line.st == Advance(c, START, first).0;
    ProcessLength(c, tiny, line, second);
  }

  lemma {:induction false} OwedIs(c: Clock, n: nat, k: nat, m: nat)
    requires c.Sound() && 0 < m && c.Pos(k + m - 1) + 1 < n <= c.Pos(k + m) + 1
    ensures Owed(c, n, k) == m
  {
    hide Owed, Clock.Sound, Clock.Pos;
    if Owed(c, n, k) < m {
      c.PosMonotone(k + Owed(c, n, k), k + m - 1);
    }
  }

  /** With exact positions the buffer is sized exactly: the second write of 1024 mono samples at 8 kHz
      fills it to its last sample. */
  lemma {:induction false} BufferIsTight(tiny: real, first: seq<Sample>, second: seq<Sample>)
    requires |first| == |second| == 1024
    ensures Serves(ExactClock(8000, 48000), 8000) && Chunked([first])
    ensures var c := ExactClock(8000, 48000);
            var line := ProcessRun(c, tiny, [first]).0;
            Ready(c, line.st) && |Doubled(Process(c, tiny, line, second).1)| == 12288
  {
    var c := ExactClock(8000, OUTPUT_RATE);
    ExactClockIsSound(8000, OUTPUT_RATE);
    assert c.Pos(6137) == 1022 && c.Pos(6138) == 1023 && c.Pos(12281) == 2046 && c.Pos(12282) == 2047;
    SecondWriteYields(c, tiny, first, second, 6144);
  }

  /** Exact positions, except that of output 12282, which comes out `err` early. */
  function Dent(err: real): Scale {
    (k: nat) => if k == 12282 then 2047.0 - err else Exact(8000, OUTPUT_RATE, k)
  }

  /** After any run, one more mono write yields no more than the 16-bit buffer holds. */
  ghost predicate StaysInside(c: Clock, tiny: real, w: seq<seq<Sample>>, chunk: seq<Sample>)
    requires c.Sound() && c.slack <= 2.5 && Chunked(w) && DELAY <= |chunk|
  {
    var line := ProcessRun(c, tiny, w).0;
    |Doubled(Process(c, tiny, line, chunk).1)| <= BUFFER_SAMPLES
  }

  /** With any rounding at all some such write leaves the buffer. */
  lemma {:induction false} RoundingOverrunsBuffer(tiny: real, slack: real, first: seq<Sample>, second: seq<Sample>)
    requires 0.0 < slack <= 2.5 && |first| == |second| == 1024
    ensures exists c :: Serves(c, 8000) && c.slack == slack && Chunked([first])
                        && !StaysInside(c, tiny, [first], second)
  {
    var err := if slack <= 0.125 then slack else 0.125;
    var c := Clock(8000, OUTPUT_RATE, Dent(err), slack);
    DentIsSound(err, slack);
    SecondWriteYields(c, tiny, first, second, 6145);
  }

  lemma {:induction false} DentIsSound(err: real, slack: real)
    requires 0.0 < err <= 0.125 && err <= slack <= 2.5
    ensures var c := Clock(8000, OUTPUT_RATE, Dent(err), slack);
            && Serves(c, 8000) && c.Pos(6137) == 1022 && c.Pos(6138) == 1023
            && c.Pos(12282) == 2046 && c.Pos(12283) == 2047
  {
    var c := Clock(8000, OUTPUT_RATE, Dent(err), slack);
    assert forall k: nat :: Exact(8000, OUTPUT_RATE, k) == k as real / 6.0;
    assert forall k: nat :: c.scale(k) == if k == 12282 then 2047.0 - err else k as real / 6.0;
  }

  /** After any run a write of `n` samples, or frames, stays inside the 16-bit buffer. */
  ghost predicate MonoFits(c: Clock, tiny: real, n: nat)
    requires c.Sound() && c.slack <= 2.5 && DELAY <= n
  {
    forall w, chunk :: Chunked(w) && |chunk| == n ==> StaysInside(c, tiny, w, chunk)
  }

  ghost predicate StereoFits(c: Clock, tiny: real, n: nat)
    requires c.Sound() && c.slack <= 2.5 && DELAY <= n
  {
    forall w, chunk :: StereoChunked(w) && WholeFrames(w) && |chunk| == 2 * n
                       ==> |StereoWrite(c, tiny, w, chunk)| <= BUFFER_SAMPLES
  }

  /** What one more stereo write yields after the writes `w`. */
  ghost function StereoWrite(c: Clock, tiny: real, w: seq<seq<Sample>>, chunk: seq<Sample>): seq<Sample>
    requires c.Sound() && c.slack <= 2.5 && StereoChunked(w) && 2 * DELAY <= |chunk|
  {
    ProcessStereo(c, tiny, StereoRun(c, tiny, w).0, chunk).1
  }

  /** A stereo write yields as much as a mono write of one of its channels. */
  lemma {:induction false} StereoWriteIff(c: Clock, tiny: real, w: seq<seq<Sample>>, chunk: seq<Sample>)
    requires c.Sound() && c.slack <= 2.5 && StereoChunked(w) && 2 * DELAY <= |chunk|
    ensures Chunked(Picked(w, 0))
    ensures |StereoWrite(c, tiny, w, chunk)| <= BUFFER_SAMPLES
            <==> StaysInside(c, tiny, Picked(w, 0), Channel(chunk, 0))
  {
    hide Clock.Sound, ProcessRun, StereoRun, Process, Picked, Chunked, StereoChunked, Ready;
    StereoIsTwoMonos(c, tiny, w);
  }

  /** Each mono chunk on both channels. */
  function Both(w: seq<seq<Sample>>): (b: seq<seq<Sample>>)
    ensures |b| == |w|
  {
    if w == [] then [] else Both(w[..|w| - 1]) + [Doubled(w[|w| - 1])]
  }

  lemma {:induction false} BothPicked(w: seq<seq<Sample>>)
    requires Chunked(w)
    ensures StereoChunked(Both(w)) && WholeFrames(Both(w)) && Picked(Both(w), 0) == w
    decreases |w|
  {
    if w != [] {
      hide Doubled, Channel, Both, Picked, Chunked, StereoChunked, WholeFrames;
      var last := |w| - 1;
      assert w == w[..last] + [w[last]];
      ChunkedFirst(w);
      BothPicked(w[..last]);
      BothOneMore(w[..last], w[last]);
      DoubledChannel(w[last]);
      PickedOneMore(Both(w[..last]), Doubled(w[last]));
    }
  }

  lemma {:induction false} ChunkedFirst(w: seq<seq<Sample>>)
    requires w != [] && Chunked(w)
    ensures Chunked(w[..|w| - 1]) && DELAY <= |w[|w| - 1]|
  {
  }

  lemma {:induction false} BothOneMore(w: seq<seq<Sample>>, chunk: seq<Sample>)
    requires StereoChunked(Both(w)) && WholeFrames(Both(w)) && DELAY <= |chunk|
    ensures Both(w + [chunk]) == Both(w) + [Doubled(chunk)]
    ensures StereoChunked(Both(w + [chunk])) && WholeFrames(Both(w + [chunk]))
  {
    hide Doubled;
    assert (w + [chunk])[..|w|] == w;
  }

  lemma {:induction false} PickedOneMore(w: seq<seq<Sample>>, chunk: seq<Sample>)
    ensures Picked(w + [chunk], 0) == Picked(w, 0) + [Channel(chunk, 0)]
  {
    hide Channel;
    assert (w + [chunk])[..|w|] == w;
  }

  lemma {:induction false} StereoFitsIff(c: Clock, tiny: real, n: nat)
    requires c.Sound() && c.slack <= 2.5 && DELAY <= n
    ensures StereoFits(c, tiny, n) <==> MonoFits(c, tiny, n)
  {
    hide Clock.Sound, StaysInside, StereoWrite, Chunked, StereoChunked, WholeFrames, Doubled, Channel;
    if StereoFits(c, tiny, n) {
      forall w, chunk | Chunked(w) && |chunk| == n
        ensures StaysInside(c, tiny, w, chunk)
      {
        BothPicked(w);
        StereoWriteIff(c, tiny, Both(w), Doubled(chunk));
        DoubledChannel(chunk);
      }
    }
    if MonoFits(c, tiny, n) {
      forall w, chunk | StereoChunked(w) && WholeFrames(w) && |chunk| == 2 * n
        ensures |StereoWrite(c, tiny, w, chunk)| <= BUFFER_SAMPLES
      {
        StereoWriteIff(c, tiny, w, chunk);
      }
    }
  }

  lemma {:induction false} DoubledChannel(xs: seq<Sample>)
    ensures Channel(Doubled(xs), 0) == xs
  {
    ChannelOfInterleave(xs, xs);
  }

  /** With exact positions the buffer bound is exactly what writes of one size need, in mono and in stereo:
      at every rate, and for every size, every write fits after every run if and only if the bound holds. */
  lemma {:induction false} WritesFitIff(rate: nat, tiny: real, n: nat)
    requires 0 < rate && DELAY <= n
    ensures Serves(ExactClock(rate, 48000), rate)
    ensures var c := ExactClock(rate, 48000);
            && (MonoFits(c, tiny, n) <==> 2 * CeilDiv(48000 * n, rate) <= 12288)
            && (StereoFits(c, tiny, n) <==> 2 * CeilDiv(48000 * n, rate) <= 12288)
  {
    hide Clock.Sound, CeilDiv, MonoFits, StereoFits, Serves, Most, ExactClock;
    var c := ExactClock(rate, OUTPUT_RATE);
    ExactServes(rate);
    MostIsCeiling(rate, OUTPUT_RATE, n);
    StereoFitsIff(c, tiny, n);
    if 2 * CeilDiv(OUTPUT_RATE * n, rate) <= BUFFER_SAMPLES {
      BoundFits(c, tiny, n);
    } else {
      ExcessOverruns(rate, tiny, n);
    }
  }

  lemma {:induction false} ExactServes(rate: nat)
    requires 0 < rate
    ensures var c := ExactClock(rate, OUTPUT_RATE);
            Serves(c, rate) && c.Sound() && 0.0 <= c.slack <= 2.5 && 0 < c.srcrate
  {
    ExactClockIsSound(rate, OUTPUT_RATE);
  }

  lemma {:induction false} BoundFits(c: Clock, tiny: real, n: nat)
    requires c.Sound() && c.slack <= 2.5 && DELAY <= n
    requires 0 < c.srcrate && 0.0 <= c.slack && 2 * Most(c, n) <= BUFFER_SAMPLES
    ensures MonoFits(c, tiny, n)
  {
    hide Clock.Sound, StaysInside, Chunked, Most;
    forall w, chunk | Chunked(w) && |chunk| == n
      ensures StaysInside(c, tiny, w, chunk)
    {
      BoundStaysInside(c, tiny, w, chunk);
    }
  }

  lemma {:induction false} ExcessOverruns(rate: nat, tiny: real, n: nat)
    requires 0 < rate && DELAY <= n && BUFFER_SAMPLES < 2 * CeilDiv(OUTPUT_RATE * n, rate)
    ensures ExactClock(rate, OUTPUT_RATE).Sound() && !MonoFits(ExactClock(rate, OUTPUT_RATE), tiny, n)
  {
    hide Clock.Sound, StaysInside, Chunked, CeilDiv, Owed, Run;
    var first, chunk := seq<Sample>(6 * rate + 1, i => 0), seq<Sample>(n, i => 0);
    CallBoundIsAttained(rate, OUTPUT_RATE, first, chunk);
    YieldOf(ExactClock(rate, OUTPUT_RATE), tiny, [first], chunk);
  }

  lemma {:induction false} YieldOf(c: Clock, tiny: real, w: seq<seq<Sample>>, chunk: seq<Sample>)
    requires c.Sound() && c.slack <= 2.5 && Chunked(w) && DELAY <= |chunk|
    ensures var st := Run(c, w).0;
            StaysInside(c, tiny, w, chunk) <==> 2 * Owed(c, st.innum + |chunk|, st.outnum) <= BUFFER_SAMPLES
  {
    hide Clock.Sound, ProcessRun, Process, Run, Chunked, Ready, Owed;
    ProcessLength(c, tiny, ProcessRun(c, tiny, w).0, chunk);
  }

  lemma {:induction false} BoundStaysInside(c: Clock, tiny: real, w: seq<seq<Sample>>, chunk: seq<Sample>)
    requires c.Sound() && c.slack <= 2.5 && Chunked(w) && DELAY <= |chunk|
    requires 0 < c.srcrate && 0.0 <= c.slack && 2 * Most(c, |chunk|) <= BUFFER_SAMPLES
    ensures StaysInside(c, tiny, w, chunk)
  {
    hide *;
    RunCallBound(c, w, |chunk|);
    YieldOf(c, tiny, w, chunk);
  }

  /** The buffers' size allows for no rounding: over all runs, writes of 1024 mono samples or 1024 stereo
      frames at 8 kHz stay inside exactly when positions are exact. */
  lemma {:induction false} BufferSufficesIff(tiny: real, slack: real)
    requires 0.0 <= slack <= 2.5
    ensures (forall c :: Serves(c, 8000) && c.slack == slack ==> MonoFits(c, tiny, 1024)) <==> slack == 0.0
    ensures (forall c :: Serves(c, 8000) && c.slack == slack ==> StereoFits(c, tiny, 1024)) <==> slack == 0.0
  {
    hide Clock.Sound, StaysInside, StereoFits, Chunked;
    forall c | Serves(c, 8000)
      ensures StereoFits(c, tiny, 1024) <==> MonoFits(c, tiny, 1024)
    {
      StereoFitsIff(c, tiny, 1024);
    }
    if slack == 0.0 {
      forall c | Serves(c, 8000) && c.slack == slack
        ensures MonoFits(c, tiny, 1024)
      {
        MostIff(c, 1024, 6144);
        BoundFits(c, tiny, 1024);
      }
    } else {
      var xs := seq<Sample>(1024, i => 0);
      RoundingOverrunsBuffer(tiny, slack, xs, xs);
    }
  }
}
