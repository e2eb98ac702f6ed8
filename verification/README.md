# Verified model of the X6BC microphone factory-test firmware

A Dafny model of the parts of the firmware that compute: the streaming sample-rate converter with its
high-pass filter, the playback path that uses it, the two interpreters that program the amplifier, the
framing of recorded data on the serial line, and the profile command. Buffers that the firmware updates in
place are arrays, its control structures are classes, its loops are loops; each such method is proved against
a specification function, and the lemmas below say what those functions mean for whole runs.

| file | what it models |
|---|---|
| `Basics.dfy`, `Pcm.dfy` | bytes, options, concatenation; 16-bit samples, C conversions, interleaved channels |
| `Position.dfy` | where an output sample falls in the source stream, and how many outputs that makes |
| `Resampler.dfy` | one converter call as a function of its state; rounding tolerance over any run |
| `Streaming.dfy` | without rounding: a run of calls equals one pure definition of the whole stream |
| `DcReject.dfy` | the two-stage high-pass filter over the reals |
| `Pipeline.dfy` | converter and filter together, mono and stereo, over whole runs |
| `AudioResample.dfy` | the routines of `audio_resample.c` over arrays and a `Resample` object |
| `Player.dfy` | `duer_audio_dac_*`: fixed buffers, widening to 32-bit words, a whole playing session |
| `HexTokens.dfy`, `Bus.dfy` | the script tokenizer; the I2C bus and delays as a trace |
| `AmpScript.dfy`, `RegisterTable.dfy` | the script interpreter and the register-table interpreter |
| `ResultOut.dfy` | 512-byte frames with 40-byte headers, and a host that reads them back |
| `Profile.dfy` | four quoted parameters in, one JSON text out |

How the model reads the source:

- `ratio * k` is a parameter: a `Clock` carries the machine's value for every counter `k`, assumed
  non-negative, monotone, and within `slack` of srcrate * k / tarrate. All converter methods are proved for any
  such clock with `slack` up to 5/2, and so is the playback path with its buffer bound; `ExactClock` is the one
  without rounding, and the statements about whole streams use it. `RunStaysInDelayLine` and `SlackIsTight` say
  what the six delay slots buy, `RunCallBound` what rounding may add to one call, `RoundingStaysBounded` that it
  never accumulates.
- The comment at `bds_player.c` lines 40 to 42 sizes the buffers for 16/8 * 2 * 1024 bytes at 8 kHz: 4096 bytes,
  1024 stereo frames. For these, and for 1024 mono samples (2048 bytes), the size is right when positions are
  exact, and it leaves no room: one position that comes out early, by however little, can add an output more than
  fits (`BufferIsTight` for mono, `BufferSufficesIff` for both). As mono samples 4096 bytes at 8 kHz would need
  twice the buffer (`WritesFitIff` says what fits at every rate).
- The weights, the filter cells and `VERY_SMALL` (the parameter `tiny`) are reals.
- A chunk has at least six samples per channel, because the source copies the last six without looking.
- `dc_reject_mono` and `dc_reject_dual` are modelled on one buffer: every call in the source passes the same
  buffer as input and output.
- The loops' bodies (`NextMono`, `NextStereo`, `NextDownCh`) and the two branches that pick a neighbour are
  methods of their own; the source repeats them inline. The copy into the delay line stands behind the loop
  that in the source breaks right after it.
- The comment at `audio_resample.h` line 7 ties the six slots to the rate ratio 48000/8000. The code only ever
  needs one slot when positions are exact, at any ratio (`LooksBackAtMostOne`); the other five absorb rounding.
- The register table's end marker does not end anything, whatever the message printed there says: the `break`
  leaves the `switch` only (`MarkerDoesNotEnd`). It does cost the write to its first register, which is why a table
  that happens to contain the three registers in a row is not replayed in full (`TableRoundTrip`).
- The script interpreter does not check its 255-byte command buffer. `Roomy` says of a script that no access leaves
  it, and `RoomyIff` what that means for the lines.
- In the script interpreter a line with too few values leaves stale bytes in the buffer
  (`ShortLineSendsStaleByte`). The bus sees none of them exactly when every byte a line sends has been stored by
  a line before it (`TraceIgnoresBufferIff`).
- A block that no line ends is not sent (`UnclosedScriptDropsLast`). Every block is sent exactly when the last
  line leaves none open (`EveryBlockEndsIff`, `EveryBlockSentIff`).
- No proof uses automatic induction: every lemma carries `{:induction false}`.

## Model

| member | source | states |
|---|---|---|
| `Position.TotalIff` | components/codec/utility/audio_resample.c:19-32 | output k can be produced from n source samples if and only if k is below max(0, ceil(tarrate * (n - 1) / srcrate)) |
| `Resampler.MixBetween` | components/codec/utility/audio_resample.c:46-53 | the weighted value lies between its two neighbours, so neither saturation branch is ever taken |
| `Resampler.Owed` | components/codec/utility/audio_resample.c:19-32 | a call terminates for any tolerated rounding, and stops at the first output whose right neighbour is missing |
| `Resampler.EmitAt` | components/codec/utility/audio_resample.c:20-54 | every output of a call reads within the six delay slots and the chunk, and the loop goes on exactly while that chunk suffices |
| `Resampler.SlackSuffices` | components/codec/utility/audio_resample.c:270-277 | with rounding up to 5/2 a call, wrap included, leaves a state from which no later index reaches before the delay line |
| `Resampler.RunStaysInDelayLine` | components/codec/utility/audio_resample.c:20-44 | in every state reachable by any run, every position any later output can ask for is at most six samples back |
| `Resampler.SlackIsTight` | components/codec/include/audio_resample.h:4-7 | for every slack above 5/2 there is a tolerated rounding and a call after which an index falls before the delay line |
| `Resampler.RunCallBound` | components/codec/utility/audio_resample.c:19-57 | under any tolerated rounding no call of any run yields more than ceil(tarrate * (innum + 2 * slack) / srcrate) outputs |
| `Resampler.RoundingStaysBounded` | components/codec/utility/audio_resample.c:266-277 | rounding never accumulates: over any run under any tolerated rounding, after n samples and m outputs the position srcrate * m / tarrate lies between n - 1 - slack and, if m > 0, n - 1 + slack + srcrate / tarrate |
| `Resampler.MostIsCeiling` | components/player/bds_player.c:40-42 | without rounding that bound is ceil(tarrate * innum / srcrate) |
| `Resampler.OutputsInterpolate` | components/codec/utility/audio_resample.c:20-54 | under any tolerated rounding every output of every run is the interpolation of the whole stream at the clock's position for it, wraps counted in, and that position is within the slack of srcrate * k / tarrate |
| `Streaming.MixIsExact` | components/codec/utility/audio_resample.c:20-46 | the real weighting truncates to the integer interpolation (r * p1 + (t - r) * p0) / t with r the remainder of the position |
| `Streaming.BatchGrows` | components/codec/utility/audio_resample.c:8-58 | outputs already produced never depend on later input |
| `Streaming.InPhaseLooksBackOne` | components/codec/utility/audio_resample.c:25-38 | from a state in phase the first position is at most one sample before the chunk |
| `Streaming.CallCount` | components/codec/utility/audio_resample.c:19-57 | the exact number of outputs of one call, from the counters alone |
| `Streaming.CallBound` | components/codec/utility/audio_resample.c:19-57 | one call yields at most ceil(innum * tarrate / srcrate) outputs |
| `Streaming.CallBoundIsAttained` | components/codec/utility/audio_resample.c:19-57 | that bound is met by every call after a first chunk of six seconds and one sample |
| `Streaming.WrapKeepsPhase` | components/codec/utility/audio_resample.c:274-277 | subtracting a second from both counters keeps the output counter equal to what the input counter owes |
| `Streaming.WrapIsInvisible` | components/codec/utility/audio_resample.c:274-277 | the wrap leaves every later index into the chunk and every weight unchanged |
| `Streaming.EmitIsBatch` | components/codec/utility/audio_resample.c:8-58 | one call after any history produces exactly the next stretch of the whole stream's outputs |
| `Streaming.StreamingIsBatch` | components/codec/utility/audio_resample.c:266-277 | for every stream and every cut into chunks the concatenated outputs are the pure sequence of the whole stream; delay line, counters and wraps do not show |
| `Streaming.OutputCount` | components/codec/utility/audio_resample.c:266-277 | after n samples in all, however cut, exactly max(0, ceil(tarrate * (n - 1) / srcrate)) outputs exist |
| `Streaming.LooksBackAtMostOne` | components/codec/utility/audio_resample.c:34-44 | over any exact run only the newest delay slot is read and the branch for a second neighbour in the delay line is dead |
| `Streaming.CountersStayBounded` | components/codec/utility/audio_resample.c:271-277 | chunks of at most a second keep both counters within a second over any run, and no call leaves a whole second in both |
| `Streaming.UpsamplingKeeps` | components/codec/utility/audio_resample.c:19-57 | raising the rate m times puts source sample j at output m * j |
| `Streaming.DownsamplingPicks` | components/codec/utility/audio_resample.c:19-57 | lowering the rate m times yields exactly every m-th sample |
| `Streaming.RoundTrip` | components/codec/utility/audio_resample.c:19-57 | up by m and down by m returns the stream less its last sample |
| `Streaming.StreamedRoundTrip` | components/codec/utility/audio_resample.c:266-277 | the same for any chunking of the stream and any chunking of the intermediate result |
| `Pcm.SaturateIsNearest` | components/codec/utility/audio_resample.c:206-212 | the two comparisons give the one 16-bit value nearest to any integer |
| `DcReject.Filter.FilteredIsNearest` | components/codec/utility/audio_resample.c:205-213 | each filtered sample is the 16-bit value nearest to the computed one cut toward zero: -32768 below, 32767 above, itself between |
| `DcReject.Filter.FilteredConcat` | components/codec/utility/audio_resample.c:190-215 | filtering pieces with the memory carried over is filtering the whole |
| `DcReject.CellStaysBounded` | components/codec/utility/audio_resample.c:199-204 | one cell update keeps the bound b + e/c |
| `DcReject.Filter.StaysBounded` | components/codec/utility/audio_resample.c:190-215 | both cells stay within 32768 + e/c and 65536 + 2e/c over runs of any length |
| `DcReject.Filter.ValueIsBounded` | components/codec/utility/audio_resample.c:203-213 | the value converted to `int` is at most 131072 + 3e/c in size |
| `DcReject.Filter.ClosedForm` | components/codec/utility/audio_resample.c:196-205 | from rest a constant x gives a^n * l - n * c * a^(n-1) * l - e/c as n-th value, with a = 1 - c, l = x + e/c and e the constant `VERY_SMALL` |
| `DcReject.Filter.ConstantResponse` | components/codec/utility/audio_resample.c:196-205 | from any memory (m0, m1) a constant x gives a^n * f - n * c * a^(n-1) * f - a^n * m1 - e/c as n-th value, with f = x + e/c - m0 |
| `DcReject.Filter.ConstantIsRejected` | components/codec/utility/audio_resample.c:190-215 | whatever 16-bit input came before (any bounded memory), from output 22 * m + 1 on, with m * c at least 1, every output for a constant is zero, for any e up to half the coefficient |
| `DcReject.PowHalves` | components/codec/utility/audio_resample.c:195-205 | every m samples, with m * c at least 1, at least halve the factor (1 - c)^n that a constant survives with |
| `DcReject.PowDecays` | components/codec/utility/audio_resample.c:195-205 | (1 - c)^n is at most 1 / (1 + n * c) |
| `Pipeline.FilterOverRun` | components/codec/utility/audio_resample.c:266-282 | the per-call filtering of any run is one filtering of all the run's converter outputs, under any tolerated rounding |
| `Pipeline.PipelineIsFilteredBatch` | components/codec/utility/audio_resample.c:266-282 | chunked conversion with chunked filtering equals filtering the batch of the whole stream once |
| `Pipeline.ConstantStreamIsSilenced` | components/codec/utility/audio_resample.c:266-282 | end to end: a stream that becomes constant, after anything and however cut, comes out as zero from 22 * ceil(tarrate / 12) + 1 outputs after the first one made of constant samples only: 88001 at 48 kHz, under two seconds |
| `Pipeline.CellsStayBounded` | components/codec/utility/audio_resample.c:279-279 | in every reachable state of the pipeline the filter cells are bounded, and so was every value converted to `int` on the way there |
| `Pipeline.StereoIsTwoMonos` | components/codec/utility/audio_resample.c:284-304 | any stereo run, whose channels share their counters, outputs the interleaving of two independent mono runs; that one twelve-slot delay and four cells hold both channels' states is `ResamplingProcessDual` |
| `AudioResample.Resample.Clear` | components/player/bds_player.c:203-203 | zeroing the structure is the resting state of every variant |
| `AudioResample.WeightedSample` | components/codec/utility/audio_resample.c:20-53 | the code's weights, sum, truncation and two comparisons give the specified sample |
| `AudioResample.ResamplingMono` | components/codec/utility/audio_resample.c:8-58 | writes exactly the call's outputs, touches nothing behind them, and leaves the newest six samples in the delay line |
| `AudioResample.ResamplingDual` | components/codec/utility/audio_resample.c:60-133 | each channel of the output is what the mono converter yields for that channel, and so is each channel of the delay line; the buffer behind the outputs stays |
| `AudioResample.ResamplingDualDownCh` | components/codec/utility/audio_resample.c:135-188 | yields what the mono converter yields for the picked channel |
| `AudioResample.StageIs` | components/codec/utility/audio_resample.c:198-205 | the two stages written out: each cell moves by coef times its difference plus the constant, the value is the sample less both cells |
| `AudioResample.RejectSample` | components/codec/utility/audio_resample.c:198-213 | one sample through two cells: new cells, output clipped to -32768 and 32767, the other cells untouched |
| `AudioResample.DcRejectMono` | components/codec/utility/audio_resample.c:190-215 | in place: the buffer's prefix becomes its filtered form, the rest and the other cells stay |
| `AudioResample.DcRejectDual` | components/codec/utility/audio_resample.c:217-264 | in place: each channel becomes its own filtered form with its own two cells |
| `AudioResample.RejectChannel` | components/codec/utility/audio_resample.c:224-263 | the loop over one channel leaves the other channel's samples and cells alone |
| `AudioResample.Count` | components/codec/utility/audio_resample.c:271-277 | the counters advance by the call's counts and lose a second only when both have passed it |
| `AudioResample.ResamplingProcessMono` | components/codec/utility/audio_resample.c:266-282 | one call is one step of the mono pipeline, state and output |
| `AudioResample.ResamplingProcessDual` | components/codec/utility/audio_resample.c:284-304 | one call is one step of the mono pipeline on each channel of the shared twelve-slot delay, counters and four cells; the buffer behind the outputs stays |
| `AudioResample.ResamplingProcessDualDownCh` | components/codec/utility/audio_resample.c:306-323 | one call is one step of the mono pipeline on the picked channel |
| `AudioResample.ResamplingProcess` | components/codec/utility/audio_resample.c:325-358 | incomplete frames yield nothing and change nothing; equal rates copy; otherwise the mono or the stereo step |
| `AudioResample.Duplicate` | components/codec/utility/audio_resample.c:372-376 | the backward in-place loop doubles every sample although source and target overlap |
| `AudioResample.ResamplingProcessUpChannel` | components/codec/utility/audio_resample.c:360-380 | the mono step, every output sample on both channels |
| `AudioResample.ResamplingProcessDownChannel` | components/codec/utility/audio_resample.c:382-402 | an odd count yields nothing; equal rates pick the channel out; otherwise the mono step on that channel |
| `Player.Dac.LoadDriver` | components/player/bds_player.c:265-294 | each buffer is allocated at most once; which exist afterwards, and the answer, for every outcome of the codec's start and of both allocations |
| `Player.Dac.StartPlay` | components/player/bds_player.c:196-206 | starts a session in which nothing has been written or heard |
| `Player.Dac.Widen` | components/player/bds_player.c:233-235 | resampled value j lands in place 2 * j + 1, the high half of its own 32-bit word; low halves and later words stay |
| `Player.Dac.ConvertMono` | components/player/bds_player.c:225-227 | the resampled and doubled chunk fits the 16-bit buffer and continues the session, under any tolerated rounding |
| `Player.Dac.ConvertStereo` | components/player/bds_player.c:228-231 | the same for two channels; an odd sample count is refused |
| `Player.Dac.Write` | components/player/bds_player.c:208-241 | for a write within `Fits`, which for a mono chunk of n samples to be converted is 2 * ceil(48000 * (n + 2 * slack) / rate) <= 12288 with slack the rounding of positions, neither buffer is left, one block is sent, its places 2 * j + 1 are what is heard of it, and everything heard so far is what the pipeline makes of everything written so far; without buffers or with another channel count than 1 or 2 the write is refused and nothing is sent or heard |
| `Player.FitsIff` | components/player/bds_player.c:40-42 | for exact positions a write fits if and only if it is an odd stereo count, or at 48 kHz its copy is at most 12288 samples, or it has six samples a channel and 2 * ceil(48000 * n / rate) is at most 12288 |
| `Player.MonoPlaybackIsBatch` | components/player/bds_player.c:208-241 | for exact positions, whatever the write sizes, a mono session plays the filtered batch of its whole input, each sample twice; at 48 kHz the input itself, unfiltered, each sample twice |
| `Player.StereoPlaybackIsBatch` | components/player/bds_player.c:208-241 | for exact positions, whatever the write sizes, each channel of a stereo session plays the filtered batch of that channel; at 48 kHz the channel itself, unfiltered |
| `Player.BufferIsTight` | components/player/bds_player.c:40-42 | for exact positions 1024 mono samples at 8 kHz fill the 16-bit buffer to its last sample on the second write |
| `Player.WritesFitIff` | components/player/bds_player.c:40-42 | for exact positions, every rate and every size n: all writes of n mono samples fit the buffer after every run if and only if 2 * ceil(48000 * n / rate) <= 12288, and so for n stereo frames |
| `Player.BufferSufficesIff` | components/player/bds_player.c:40-42 | with a given rounding of positions, writes of 1024 mono samples, or of 1024 stereo frames, at 8 kHz stay within the buffer after every run under every such clock if and only if that rounding is zero |
| `Player.RoundingOverrunsBuffer` | components/player/bds_player.c:40-42 | for every positive rounding there is a clock under which the second such write yields more than the buffer holds |
| `HexTokens.SpacesComplete` | components/codec/TAS5805M/pa_config.c:22-34 | the token positions are all spaces but one in last position, in order |
| `HexTokens.GetValFromString` | components/codec/TAS5805M/pa_config.c:17-72 | returns min(val_len, number of such spaces) and stores for the k-th the value mod 256 of the maximal hexadecimal run behind it; other bytes stay |
| `HexTokens.DigitIff` | components/codec/TAS5805M/pa_config.c:43-57 | the digits are the sixteen of 0123456789abcdef, each with its place as value |
| `HexTokens.TokenBehindSpace` | components/codec/TAS5805M/pa_config.c:22-62 | token k is the positional sum, mod 256, of the longest run of those digits behind space k, for runs of any length |
| `HexTokens.SumOfLast` | components/codec/TAS5805M/pa_config.c:36-62 | mod 256 an empty run is 0, one digit is itself, and of a longer run only the last two digits count |
| `HexTokens.TokensOfPrinted` | components/codec/TAS5805M/pa_config.c:22-71 | a line printed as two-digit lower-case bytes reads back as those bytes |
| `AmpScript.SetConfigFromCode` | components/codec/TAS5805M/pa_config.c:222-308 | for any script that stays inside the command buffer the bus trace is the one defined by which `w` line is still open before each line, stale bytes included |
| `AmpScript.LineOpens` | components/codec/TAS5805M/pa_config.c:254-299 | by a line's first character: `w` opens a block, `>` leaves the open block as it is, anything else or an empty line leaves none open |
| `AmpScript.LineStores` | components/codec/TAS5805M/pa_config.c:270-278 | a `w` line stores its first values in bytes 0 to 2, a `>` line of a block its first value in the next byte, and nothing else changes |
| `AmpScript.LineSends` | components/codec/TAS5805M/pa_config.c:256-297 | a line sends something exactly when a block is open and it is no `>` line: one write of register byte 1 with the bytes from 2 on, and a 50 ms pause if it is the first `w` line to do so |
| `AmpScript.RoomyIff` | components/codec/TAS5805M/pa_config.c:254-296 | no byte is stored or sent outside the 255 bytes if and only if each ended block has at most 252 `>` lines and in a block that nothing ends only the first 252 have values |
| `AmpScript.ShortIsRoomy` | components/codec/TAS5805M/pa_config.c:254-296 | at most 252 `>` lines in every block are enough |
| `AmpScript.BufferHoldsBlock` | components/codec/TAS5805M/pa_config.c:270-280 | while a block is open the command buffer starts with that block's bytes |
| `AmpScript.ScriptPlaysBlocks` | components/codec/TAS5805M/pa_config.c:244-299 | for a well-formed script the bus sees exactly one write for each block that some line ends, in order, whatever the buffer held |
| `AmpScript.ScriptRoundTrip` | components/codec/TAS5805M/pa_config.c:244-299 | printing any list of writes as a script and playing it sends exactly those writes, with the one 50 ms pause after the first of several |
| `AmpScript.TraceShowsStaleBytes` | components/codec/TAS5805M/pa_config.c:244-299 | two contents of the fresh buffer give the same trace if and only if they agree on every byte that some line sends before any line has stored it |
| `AmpScript.TraceIgnoresBufferIff` | components/codec/TAS5805M/pa_config.c:244-299 | no content of the fresh buffer shows on the bus if and only if every byte a line sends has been stored by a line before it |
| `AmpScript.BufferRemembers` | components/codec/TAS5805M/pa_config.c:270-280 | a byte some line has stored no longer depends on the fresh buffer; every other byte is still the fresh one |
| `AmpScript.EveryBlockEndsIff` | components/codec/TAS5805M/pa_config.c:254-299 | each block is ended by some line if and only if none is open after the last line |
| `AmpScript.WritesBalance` | components/codec/TAS5805M/pa_config.c:254-299 | after any number of lines of any script, each `w` line so far has been sent once or is the one still open |
| `AmpScript.EveryBlockSentIff` | components/codec/TAS5805M/pa_config.c:254-307 | as many writes as `w` lines are sent if and only if no block is open after the last line |
| `AmpScript.UnclosedScriptDropsLast` | components/codec/TAS5805M/pa_config.c:286-307 | the same script without its closing line sends all but the last write |
| `AmpScript.ShortLineSendsStaleByte` | components/codec/TAS5805M/pa_config.c:270-272 | a `w` line with two values sends the byte the buffer happened to hold |
| `RegisterTable.TransmitRegisters` | components/codec/TAS5805M/pa_config.c:310-344 | ends, reads only the table, and adds to the bus trace what the table means entry by entry |
| `RegisterTable.PauseEntry` | components/codec/TAS5805M/pa_config.c:320-322 | an entry 254 pauses for its value in milliseconds |
| `RegisterTable.SwitchEntry` | components/codec/TAS5805M/pa_config.c:317-319 | an entry 255 does nothing |
| `RegisterTable.BurstEntry` | components/codec/TAS5805M/pa_config.c:323-328 | an entry 253 with value v writes the v bytes behind the next entry's offset in memory and takes up v / 2 + 1 entries more |
| `RegisterTable.MarkerEntries` | components/codec/TAS5805M/pa_config.c:329-339 | entries 0xaa, 0xcc, 0xee: the first does nothing, the other two are register writes |
| `RegisterTable.WriteEntry` | components/codec/TAS5805M/pa_config.c:335-339 | any other entry is one register write |
| `RegisterTable.EncodableIff` | components/codec/TAS5805M/tas5805_agc_drc3_eq0.h:21-26 | all operations have entries but writes to registers 253 to 255 and bursts of more than 255 bytes |
| `RegisterTable.RawOfPacked` | components/codec/TAS5805M/pa_config.c:323-328 | burst bytes packed two to an entry are contiguous in memory, for both parities and any padding |
| `RegisterTable.TableShows` | components/codec/TAS5805M/pa_config.c:313-342 | interpreting the encoding of any writes, delays and bursts performs them in order, less the writes whose entries begin an end marker, and then what follows them |
| `RegisterTable.TableRoundTrip` | components/codec/TAS5805M/pa_config.c:313-342 | it performs exactly those operations, and then what follows them, if and only if no operation's entries begin an end marker; writes to 0xaa included |
| `RegisterTable.PlainTable` | components/codec/TAS5805M/pa_config.c:329-339 | without a write to 0xaa a table is always in range and meets no marker |
| `RegisterTable.MarkerDoesNotEnd` | components/codec/TAS5805M/pa_config.c:329-342 | the end marker's second and third entries are written as registers and interpretation goes on |
| `ResultOut.Recorder.Header` | main/result_out.c:23-24 | the header buffer holds the text cut to 39 characters and a terminator |
| `ResultOut.FrameIff` | main/result_out.c:21-34 | a frame, written out: 40 bytes that hold the case, "record ", length and index, cut to 39 characters and a terminator, then the payload and a newline |
| `ResultOut.DecimalIs` | main/result_out.c:24-24 | numbers are printed in decimal without leading zeros |
| `ResultOut.Recorder.OutPrintData` | main/result_out.c:21-37 | sends one frame, which starts with the case and "record "; the index advances by one |
| `ResultOut.Recorder.DataOutExec` | main/result_out.c:44-68 | the stream gains exactly one frame for each sendable part, numbered without a gap from the current index |
| `ResultOut.Recorder.OutPrintDataCtl` | main/result_out.c:70-74 | the next frame is number 0 again |
| `ResultOut.PiecesCarry` | main/result_out.c:50-64 | the payloads concatenate to the input when it is short, else to its largest prefix of whole frames |
| `ResultOut.LosslessIff` | main/result_out.c:50-64 | nothing is lost if and only if the length is below 512 or a multiple of 512 |
| `ResultOut.FrameReadsBackIff` | main/result_out.c:23-36 | the host's reader gets a frame's number and payload back if and only if its header text has fewer than 40 characters |
| `ResultOut.NumberIsAmbiguousIff` | main/result_out.c:23-24 | another number's frame may have the same header if and only if the text has at least 40 characters, except for the number 0 in exactly 40 |
| `ResultOut.CutHeaderLosesNumber` | main/result_out.c:23-24 | once no digit of the number fits, frames of all numbers have the same headers |
| `ResultOut.StreamRoundTrip` | README.md:27 | concatenated frames delimit themselves: the stream reads back as the payloads, numbered without a gap, whatever bytes the payloads hold |
| `Profile.QuotedCount` | main/case/system_control.c:85-112 | the number of quoted substrings is half the number of quotes |
| `Profile.GetParam` | main/case/system_control.c:85-112 | the first quoted substring, if there is one |
| `Profile.QuotedFirst` | main/case/system_control.c:91-109 | that is what stands between the first two quotes, and the next one is looked for behind them |
| `Profile.StrCat` | main/case/system_control.c:174-181 | appends behind the terminator within the buffer |
| `Profile.Build` | main/case/system_control.c:164-181 | the text and its terminator fill the computed length exactly |
| `Profile.StartProfileCase` | main/case/system_control.c:114-181 | a profile is built if and only if the line has at least eight quotes, from the first four quoted substrings |
| `Profile.ProfileRoundTrip` | main/case/system_control.c:164-181 | every second quoted substring of the built text is fc, pk, ak, sk |

## Left out

- IEEE single precision: positions carry an abstract rounding bound, the weights and the filter are exact reals; the stream equations hold for exact positions.
- `int` overflow of the running counters, of `cur_val` and of `g_idx`: integers are unbounded; `CountersStayBounded` covers the counters, and the stored token is the value mod 256 either way.
- Heap allocation failure in the amplifier, recorder and profile code, which only prints a message and returns.
- The flash partition calls of the profile command and everything behind them, including the write of one byte more than the text; the model ends at the built text.
- `tas5805m_pa_set_config_from_file`: the same interpreter behind file input.
- `duer_audio_dac_backup_parameter` and `duer_audio_dac_restore_parameter`: a restored rate in the middle of a session is not modelled.
- I2S, I2C, GPIO, UART and codec set-up: the bus and the serial line are traces, the I2S driver's answer is a parameter.
- The low halves of the 32-bit words and the header bytes behind the terminator keep whatever they held; the contracts say nothing of them.
- DcReject.Filter.ConstantIsRejected: the index past which outputs are zero is 22 time constants of the filter, a bound that holds and not the least such index.
- RegisterTable.TableRoundTrip: single writes to registers 253 to 255 are not encodable in the table's own format.
- Volume tables, clock coefficients, command dispatch, the serial-number case and the recorder's SDK loop: finite, or easy, or resting on code not shown.
