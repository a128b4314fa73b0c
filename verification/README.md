# Onset detection core of the tap-beat game

A Dafny model of the three onset detectors of the game, plus proofs about them.

- **The offline analyzer** (`Assets/AudioOnsetAnalyzer.cs`) pre-analyses an imported clip:
  - It downmixes the clip to mono.
  - It cuts 1024-sample frames every 512 samples.
  - It sums the positive, high-frequency-weighted spectral flux of each frame.
  - It compares each flux value with a centred mean + 1.4 × std-dev threshold.
  - It picks local maxima at least 60 ms apart and merges onsets that are still too close.
  - Separately, it estimates a tempo from the median inter-onset interval.
- **The microphone detector** (`Assets/MicOnsetDetector.cs`) polls a one-second circular recording clip:
  - Each tick it reads at most four hops past its read cursor.
  - It turns every whole hop into a frame and computes a band-energy spectrum and its positive flux.
  - It feeds the flux to a rolling 20-slot mean + k × std-dev rule, with a debounce interval.
- **The Android system-audio capture** (`Assets/Plugins/Android/AndroidAudioCapture.java`) converts each 16-bit PCM buffer to floats. It takes the buffer's RMS energy and applies the same rolling rule, with a 100 ms debounce.

Modules:

| file | module | contents |
|---|---|---|
| `stats.dfy` | `Stats` | sums, means, the shared `mean + k·max(stddev, 0.001)` threshold, `Clamp`, C#/Java truncating division |
| `flux.dfy` | `Flux` | positive spectral flux, with or without the `1 + b/n` band weight |
| `rolling.dfy` | `Rolling` | the 20-slot ring of detection values and the rolling onset rule shared by the microphone and capture paths |
| `sorting.dfy` | `Sorting` | ascending sort and the order statistic behind the median |
| `analyzer.dfy` | `OnsetAnalyzer` | the offline analyzer |
| `mic.dfy` | `MicOnset` | the microphone detector |
| `capture.dfy` | `SystemCapture` | the Android capture path |

Every quantity the source holds in a `float` is a Dafny `real`. Square root, cosine, the Hann window and the Goertzel band magnitude are function parameters that are never interpreted. Two facts are assumed about them, each stated as a precondition only where it is needed: a root is non-negative (`Stats.NonNegativeRoot`), and the root of 0 is 0 (`sqrt(0.0) == 0.0`, needed by `MicOnset.SilentFrameSpectrum`, `SystemCapture.SilentStepReportsNothing` and `SystemCapture.SilentRunReportsNothing`). Wall clocks, the microphone's write position and the samples it delivers are parameters too.

Two behaviours of the source are worth knowing:

- **Each tick's first frame is partly zeros.** Every microphone frame ends on the hop just read. The frame window indexes back into the current tick's buffer only, so its first `fftSize - hopSize` samples are zeros (`MicOnset.FrameContents`). Samples from the previous tick are never reused.
- **The merge pass removes nothing in exact arithmetic.** Peak picking already keeps frames `0.06·rate/512` apart, and those frames are exactly 0.06 s apart once converted to seconds (`OnsetAnalyzer.MergeRedundantAfterPicking`). Only float rounding could make the merge remove anything.

## Model

| member | source | states |
|---|---|---|
| Stats.AdaptiveThreshold | Assets/AudioOnsetAnalyzer.cs:153-167 | with a non-negative multiplier the threshold is at least the mean plus multiplier × 0.001, and strictly above the mean when the multiplier is positive, whatever the spread |
| Stats.TruncDiv | Assets/AudioOnsetAnalyzer.cs:65 | the quotient rounds toward zero: the remainder has the sign of the dividend and is smaller than the divisor in magnitude |
| Flux.BandWeight | Assets/AudioOnsetAnalyzer.cs:96 | the high-frequency weight lies in [1, 2) and is 1 when weighting is off |
| Flux.Contribution | Assets/AudioOnsetAnalyzer.cs:92-98 | a band adds a non-negative amount, positive exactly when its energy rose |
| Flux.PartialFlux | Assets/AudioOnsetAnalyzer.cs:89-99 | the flux is non-negative, and zero exactly when no band rose |
| Flux.SpectralFlux | Assets/AudioOnsetAnalyzer.cs:88-100 | the flux of a frame is non-negative, and zero exactly when no band rose |
| Flux.NoRiseAll | Assets/AudioOnsetAnalyzer.cs:92-98 | "no band rose", checked band by band from the top, holds exactly when every band is at most its previous value |
| Flux.SpectralFluxZero | Assets/AudioOnsetAnalyzer.cs:88-100 | the flux is zero exactly when every band is at most its previous value |
| Flux.SteadySpectrumHasNoFlux | Assets/AudioOnsetAnalyzer.cs:88-100 | a spectrum compared with itself has zero flux, weighted or not |
| Flux.WeightingBounds | Assets/AudioOnsetAnalyzer.cs:95-97 | the weighted flux is at least the unweighted flux and at most twice it |
| Rolling.Cleared | Assets/MicOnsetDetector.cs:93 | a new history holds twenty zeros, keeps the requested cursor, and is valid and non-negative |
| Rolling.Push | Assets/MicOnsetDetector.cs:204-205 | the value lands at the cursor and every other slot is unchanged; the cursor advances by one and wraps from 19 to 0; non-negativity is preserved |
| Rolling.PushAllCursor | Assets/MicOnsetDetector.cs:204-205 | pushing n values one by one moves the cursor n slots modulo 20 |
| Rolling.PushAllSnoc | Assets/MicOnsetDetector.cs:204-205 | pushing a batch and then one more value is pushing the longer batch |
| Rolling.PushAllLast | Assets/MicOnsetDetector.cs:204-205 | a non-empty batch pushed is its prefix pushed, then its last value |
| Rolling.Observe | Assets/MicOnsetDetector.cs:204-225 | the test reads the ring after the new value is stored; it fires exactly when the value beats the threshold of the updated ring; a firing value is above the mean plus k × 0.001 |
| Rolling.ExceedsAtPrefix | Assets/MicOnsetDetector.cs:204-225 | pushing a further value does not change whether an earlier value beat the threshold of its own ring |
| Rolling.ExceedsAtLast | Assets/MicOnsetDetector.cs:204-225 | the last value pushed is tested against the ring that holds all the values |
| Rolling.AnyExceedsSnoc | Assets/MicOnsetDetector.cs:204-225 | a batch with one more value has a value over threshold exactly when the shorter batch has one or the new value beats the ring holding them all |
| Rolling.AnyExceedsWitness | Assets/MicOnsetDetector.cs:204-225 | a batch has a value over threshold exactly when some value beats the threshold of the ring just after it was stored |
| Rolling.SilenceNeverExceeds | Assets/MicOnsetDetector.cs:221-225 | over a non-negative history with k ≥ 0, a value of zero never fires |
| Rolling.SteadyNeverExceeds | Assets/MicOnsetDetector.cs:208-225 | when every slot equals the new value and k > 0, the rule does not fire |
| Sorting.Insert | Assets/AudioOnsetAnalyzer.cs:237 | inserting into a sorted list keeps it sorted, adds exactly that element to the multiset, and grows the length by one |
| Sorting.Sort | Assets/AudioOnsetAnalyzer.cs:237 | the result is sorted and is a permutation of the input |
| Sorting.OrderStatistic | Assets/AudioOnsetAnalyzer.cs:237-239 | the element at sorted rank k comes from the input, with at most k input elements below it and at most n-1-k above it |
| OnsetAnalyzer.Downmix | Assets/AudioOnsetAnalyzer.cs:49-58 | the mono length is the interleaved length divided by the channel count; a trailing partial frame is dropped |
| OnsetAnalyzer.DownmixElement | Assets/AudioOnsetAnalyzer.cs:52-57 | mono sample i is the mean of the channel samples i·c to (i+1)·c - 1, all of which lie inside the input |
| OnsetAnalyzer.ToMono | Assets/AudioOnsetAnalyzer.cs:45-60 | a mono input is returned unchanged; otherwise the result is the frame-by-frame channel mean given by the reference downmix |
| OnsetAnalyzer.MonoDownmixIsIdentity | Assets/AudioOnsetAnalyzer.cs:47 | with one channel, the general downmix would also return the input unchanged |
| OnsetAnalyzer.SumRange | Assets/AudioOnsetAnalyzer.cs:54-56 | the accumulation loop computes the sum of the channel samples |
| OnsetAnalyzer.DownmixOfInterleave | Assets/AudioOnsetAnalyzer.cs:45-60 | downmixing a signal copied onto c identical channels gives the signal back |
| OnsetAnalyzer.FrameCount | Assets/AudioOnsetAnalyzer.cs:65 | there is no frame when the input is at most one hop; there is one frame for up to one frame size; otherwise (len-1024)/512+1 frames; every frame starts inside the input; the tail left unanalysed is shorter than a hop |
| OnsetAnalyzer.FramePadding | Assets/AudioOnsetAnalyzer.cs:74-83 | inputs of at least one frame size are never zero-padded; a shorter input gets a single frame that is zero past its end |
| OnsetAnalyzer.WeightedFlux | Assets/AudioOnsetAnalyzer.cs:89-99 | the band loop computes the weighted positive flux of the frame |
| OnsetAnalyzer.FluxSeries | Assets/AudioOnsetAnalyzer.cs:62-107 | one value per frame; every value is non-negative; the first frame is compared with an all-zero spectrum, since the previous spectrum starts as a fresh array |
| OnsetAnalyzer.ComputeSpectralFlux | Assets/AudioOnsetAnalyzer.cs:62-107 | the loop's result is the flux series: one value per frame; value f is the weighted flux of frame f against frame f-1, or against silence for f = 0; every value is non-negative |
| OnsetAnalyzer.WindowSize | Assets/AudioOnsetAnalyzer.cs:145 | the threshold window is at least 10 frames wide |
| OnsetAnalyzer.Window | Assets/AudioOnsetAnalyzer.cs:150-151 | the clipped window is never empty, contains its own frame, and is never wider than the window size |
| OnsetAnalyzer.LocalThreshold | Assets/AudioOnsetAnalyzer.cs:148-168 | a frame's threshold is at least the window mean plus 1.4 × 0.001 |
| OnsetAnalyzer.ThresholdsPositive | Assets/AudioOnsetAnalyzer.cs:145-168 | over a non-negative flux every threshold is strictly positive |
| OnsetAnalyzer.MinIntervalFrames | Assets/AudioOnsetAnalyzer.cs:171 | the minimum spacing in frames is positive |
| OnsetAnalyzer.PickFrom | Assets/AudioOnsetAnalyzer.cs:174-186 | every picked frame is an interior peak above its threshold; picked frames strictly increase and are pairwise at least the minimum spacing apart, counting from the last accepted frame |
| OnsetAnalyzer.PickFromComplete | Assets/AudioOnsetAnalyzer.cs:174-186 | a peak is rejected only when it is closer than the minimum spacing to the previously accepted frame |
| OnsetAnalyzer.FrameGapTime | Assets/AudioOnsetAnalyzer.cs:171-182 | two frames at least 0.06·rate/512 apart have times at least 0.06 s apart |
| OnsetAnalyzer.TimesSpaced | Assets/AudioOnsetAnalyzer.cs:171-183 | frames at least 0.06·rate/512 apart become times at least 0.06 s apart |
| OnsetAnalyzer.PickOnsets | Assets/AudioOnsetAnalyzer.cs:139-192 | fewer than three flux values give no onsets; onsets are at least 0.06 s apart; each onset is the time of a peak frame above its threshold |
| OnsetAnalyzer.FlatFluxHasNoPeaks | Assets/AudioOnsetAnalyzer.cs:177-179 | a flux that never rises yields no picked frame |
| OnsetAnalyzer.MergeAfter | Assets/AudioOnsetAnalyzer.cs:201-205 | kept onsets are a subsequence of the input, spaced by the minimum interval, the first one far enough from the last kept onset |
| OnsetAnalyzer.MergeCloseOnsets | Assets/AudioOnsetAnalyzer.cs:194-208 | lists of at most one onset are returned as they are; otherwise the first onset is kept, the result is a subsequence of the input, and consecutive kept onsets are at least the minimum interval apart |
| OnsetAnalyzer.MergeAfterSnoc | Assets/AudioOnsetAnalyzer.cs:201-205 | one more onset is kept exactly when it lies at least the minimum interval after the last onset kept so far, and the earlier choices are unchanged |
| OnsetAnalyzer.MergeCloseOnsetsSnoc | Assets/AudioOnsetAnalyzer.cs:194-208 | each iteration of the merge loop appends the onset exactly when it lies at least the minimum interval after the last merged onset; otherwise it is dropped |
| OnsetAnalyzer.MergeKeepsSpaced | Assets/AudioOnsetAnalyzer.cs:194-208 | an already well-spaced list passes through the merge unchanged |
| OnsetAnalyzer.MergeIdempotent | Assets/AudioOnsetAnalyzer.cs:194-208 | merging twice gives the same result as merging once |
| OnsetAnalyzer.MergeRedundantAfterPicking | Assets/AudioOnsetAnalyzer.cs:171-189 | in exact arithmetic the merge pass returns the peak-picked times unchanged |
| OnsetAnalyzer.Analyze | Assets/AudioOnsetAnalyzer.cs:20-43 | the onsets are those peak picking finds in the flux series of the downmixed clip; they are at least 0.06 s apart; a clip shorter than 2048 mono samples has none |
| OnsetAnalyzer.Intervals | Assets/AudioOnsetAnalyzer.cs:226-232 | every kept interval lies strictly between 0.2 s and 2 s, and there are no more intervals than onsets |
| OnsetAnalyzer.IntervalsComplete | Assets/AudioOnsetAnalyzer.cs:227-231 | every gap between consecutive onsets that lies in (0.2, 2) is kept |
| OnsetAnalyzer.IntervalsSound | Assets/AudioOnsetAnalyzer.cs:227-231 | every kept interval is the gap between two consecutive onsets |
| OnsetAnalyzer.EstimateBPM | Assets/AudioOnsetAnalyzer.cs:221-242 | the result is 0 with fewer than four onsets or no interval in range; otherwise it lies strictly between 30 and 300, and 60/bpm is one of the kept intervals |
| OnsetAnalyzer.TempoOfInterval | Assets/AudioOnsetAnalyzer.cs:230 | an interval in (0.2, 2) gives a tempo in (30, 300) from which the interval is recovered |
| OnsetAnalyzer.EstimateIsMedian | Assets/AudioOnsetAnalyzer.cs:236-241 | with four or more onsets and some interval in range, the estimate comes from a median interval: at most half of the intervals are shorter and at most half are longer |
| OnsetAnalyzer.SteadyBeatTempo | Assets/AudioOnsetAnalyzer.cs:221-242 | onsets spaced evenly by d in (0.2, 2) yield exactly 60/d |
| MicOnset.ActualRate | Assets/MicOnsetDetector.cs:75-77 | the recording rate is the requested one when the device range allows it; a request below the minimum gives the minimum and one above a consistent maximum gives the maximum; the result is always the request or one of the bounds; a bound of 0 means none |
| MicOnset.Start | Assets/MicOnsetDetector.cs:88-95 | a (re)start gives a valid state with the read cursor at 0, an all-zero previous spectrum and an all-zero history; the history cursor, the last onset time and the multiplier survive the restart |
| MicOnset.DefaultClipRate | Assets/MicOnsetDetector.cs:75-80 | when the device's range admits 22050 Hz, the granted rate, and so the one-second clip's length in samples, is the default 22050 |
| MicOnset.Initial | Assets/MicOnsetDetector.cs:16-41 | a new component started with the default settings (1024-sample frames, 512-sample hop, 0.1 s debounce, a one-second clip at 22050 Hz, the rate granted when the device's range admits it) has 512 zero bands, a zero history with its cursor at 0, no onset yet (time 0) and the multiplier 1.5 |
| MicOnset.SamplesToRead | Assets/MicOnsetDetector.cs:112-114 | the count of available samples lies in [0, clip) and equals the distance from the read cursor to the write cursor modulo the clip length |
| MicOnset.CursorAdvance | Assets/MicOnsetDetector.cs:155 | advancing the read cursor by k of the n available samples leaves exactly n - k available, so the reader never passes the writer |
| MicOnset.FrameContents | Assets/MicOnsetDetector.cs:131-138 | the last hop of every frame holds windowed samples just read; the first frame of a tick is zero before that hop |
| MicOnset.PowerBetween | Assets/MicOnsetDetector.cs:172-176 | the power of a band is non-negative and zero for a silent frame |
| MicOnset.BandEnergy | Assets/MicOnsetDetector.cs:173-177 | a band's root power is non-negative |
| MicOnset.Spectrum | Assets/MicOnsetDetector.cs:163-186 | the spectrum has one value per band, each non-negative |
| MicOnset.SpectrumWeighting | Assets/MicOnsetDetector.cs:180-185 | high-frequency weighting leaves every band between its root power and twice it |
| MicOnset.SilentFrameSpectrum | Assets/MicOnsetDetector.cs:163-186 | a silent frame has an all-zero spectrum |
| MicOnset.ComputeSpectralFlux | Assets/MicOnsetDetector.cs:188-199 | the flux is non-negative, and zero exactly when no band rose above the previous spectrum |
| MicOnset.DetectOnset | Assets/MicOnsetDetector.cs:201-230 | the flux is pushed into the ring; an onset fires exactly when the flux beats the updated threshold and more than the debounce interval has passed; only a firing moves the last-onset time, to now; cursor, spectrum and multiplier are untouched |
| MicOnset.NoRiseNoOnset | Assets/MicOnsetDetector.cs:188-230 | a frame in which no band rose never fires (with a non-negative multiplier) |
| MicOnset.SetThreshold | Assets/MicOnsetDetector.cs:267-270 | the multiplier always ends in [0.5, 5]; values already in range are kept; nothing else changes |
| MicOnset.SetThresholdIdempotent | Assets/MicOnsetDetector.cs:267-270 | setting the same threshold twice is the same as setting it once |
| MicOnset.ProcessFrame | Assets/MicOnsetDetector.cs:130-150 | one frame: the windowed frame's spectrum becomes the previous one; its flux against the old spectrum is pushed; the frame fires exactly when that flux beats the updated threshold and the debounce has passed; the read cursor and multiplier are untouched |
| MicOnset.OnsetLoop | Assets/MicOnsetDetector.cs:128-153 | the onset side of the frame loop over a run of fluxes: the ring is all of them pushed in order; onsets are all at now and need the debounce; with a non-negative interval there is at most one, and there is one exactly when the debounce had passed and some flux beat its threshold |
| MicOnset.OnsetLoopSnoc | Assets/MicOnsetDetector.cs:144-152 | one more frame pushes its flux and fires exactly when the flux beats the updated threshold and the debounce has passed since the last onset |
| MicOnset.OnsetLoopCursor | Assets/MicOnsetDetector.cs:204-205 | the frame loop moves the ring cursor one slot per frame, modulo 20 |
| MicOnset.OnsetLoopFires | Assets/MicOnsetDetector.cs:128-153 | with a non-negative debounce, a tick reports an onset exactly when the debounce had passed and some frame's flux beat the threshold of the ring just after it was stored |
| MicOnset.FrameFluxesAt | Assets/MicOnsetDetector.cs:141-150 | frame j's flux is its spectrum against the previous frame's, or against the spectrum carried over from the last tick for the first frame |
| MicOnset.FrameOnsetsStep | Assets/MicOnsetDetector.cs:128-153 | one more frame step from the loop's state after k frames gives its state after k + 1 frames |
| MicOnset.ProcessFrames | Assets/MicOnsetDetector.cs:127-153 | one frame per whole hop of the read buffer; the kept spectrum is the last frame's; the ring, the last onset time and the onsets are those of the onset loop over the frames' fluxes; cursor and multiplier are untouched |
| MicOnset.Tick | Assets/MicOnsetDetector.cs:107-156 | nothing changes when the position is unknown or less than a hop is available; otherwise 1 to 4 frames run, one per whole hop read, over the samples read from the cursor; the read cursor advances by those hops modulo the clip, never past the writer; ring, spectrum and onsets are those of the frame loop over these frames, and onsets satisfy the debounce |
| MicOnset.ReadAndProcess | Assets/MicOnsetDetector.cs:118-155 | a tick with at least one hop available reads from the cursor and runs the frame loop, with the outcome described for `Tick` |
| SystemCapture.SampleToFloat | Assets/Plugins/Android/AndroidAudioCapture.java:155 | a 16-bit sample maps into [-1, 1), keeps its sign and zero, and is recovered by multiplying by 32768 |
| SystemCapture.SumOfSquares | Assets/Plugins/Android/AndroidAudioCapture.java:153-158 | the energy accumulator lies between 0 and the number of samples |
| SystemCapture.MeanSquare | Assets/Plugins/Android/AndroidAudioCapture.java:159 | the mean power of a buffer lies in [0, 1] |
| SystemCapture.ConvertAndMeasure | Assets/Plugins/Android/AndroidAudioCapture.java:153-159 | every converted sample times 32768 is the original sample; the energy is the RMS of the samples read, non-negative for a non-negative root |
| SystemCapture.Initial | Assets/Plugins/Android/AndroidAudioCapture.java:45-49 | the detector starts with a zero history, the ring cursor at 0, the last onset at epoch 0 and multiplier 1.8 |
| SystemCapture.Reported | Assets/Plugins/Android/AndroidAudioCapture.java:193 | the reported time in seconds is the millisecond clock divided by 1000, exactly (float rounding is under Left out) |
| SystemCapture.DetectOnset | Assets/Plugins/Android/AndroidAudioCapture.java:170-195 | the energy is pushed into the ring; an onset is reported exactly when the energy beats the updated threshold and more than 100 ms have passed; a report carries the current time and moves the last-onset time to it |
| SystemCapture.CaptureStep | Assets/Plugins/Android/AndroidAudioCapture.java:150-163 | a failed or empty read changes nothing; otherwise the buffer's RMS is pushed, and a report is made exactly when it beats the updated threshold and more than 100 ms have passed; ring non-negativity is kept |
| SystemCapture.Run | Assets/Plugins/Android/AndroidAudioCapture.java:149-165 | over any sequence of reads there are no more reports than reads; consecutive reports (exact seconds) are more than 0.1 s apart; the first report is more than 100 ms after the initial last-onset time |
| SystemCapture.RunExtend | Assets/Plugins/Android/AndroidAudioCapture.java:190-193 | one more read that reports at most once, and only past the debounce, keeps the run's reports spaced more than 0.1 s and the last-onset time on the last report |
| SystemCapture.RunDebounced | Assets/Plugins/Android/AndroidAudioCapture.java:190-193 | reported times (exact seconds) are strictly increasing and pairwise more than 0.1 s apart, whatever the clock does |
| SystemCapture.SilentRunReportsNothing | Assets/Plugins/Android/AndroidAudioCapture.java:149-195 | a run of silent buffers reports nothing (non-negative root, root of 0 is 0) |
| SystemCapture.SetOnsetThreshold | Assets/Plugins/Android/AndroidAudioCapture.java:227-229 | the multiplier always ends in [0.5, 5]; values already in range are kept; nothing else changes |
| SystemCapture.SetOnsetThresholdIsClamp | Assets/Plugins/Android/AndroidAudioCapture.java:227-229 | the Java max/min formulation agrees with the Unity clamp used by the microphone detector on every input |

## Left out

- Float arithmetic. Every `float` is an exact `real`, and the constants `0.06f`, `1.4f`, `0.001f`, `0.1f` and `1.8f` are taken as exact. Rounding could make the merge pass drop an onset or put a tempo exactly on 30 or 300 BPM; the model cannot show that. The coarsest rounding is in the capture path's report times; see the `SystemCapture` lines below.
- Square root, cosine, `MakeHannWindow`, `HannWindow` and the Goertzel loop of the offline `ComputeMagnitudeSpectrum` are parameters. They are transcendental, and nothing proved depends on their values beyond a root being non-negative and the root of 0 being 0.
- The null-clip guard of `Analyze` and the `GetData` calls. The model takes the interleaved samples (offline) or the delivered samples as a function `data` (microphone) as inputs. `firstPart` is computed but never used by the source.
- Microphone discovery, permission requests, `Update`'s enabled check, `OnDestroy`, `OnApplicationPause` and `SetEnabled`. These are platform calls with no logic beyond `Start` and `Tick`.
- Android media projection, recorder setup, the capture thread, `stopCapture` and `UnitySendMessage`. These are I/O and concurrency.
- SystemCapture.Reported: divides exactly. The source computes `now / 1000f` in Java `float`. With `now` from `System.currentTimeMillis()` (about 1.8e12), the float quotient near 1.8e9 s can only take multiples of 128 s, so the reported seconds are far coarser than the model's.
- SystemCapture.Run: the report times are exact quotients. The more-than-0.1 s gaps hold for them and for the millisecond clock values that the debounce compares (`Assets/Plugins/Android/AndroidAudioCapture.java:190`). They do not hold for the float seconds the program passes on: two onsets 0.2 s apart are usually reported as the same number.
- SystemCapture.RunDebounced: same as for `Run`. "Strictly increasing and more than 0.1 s apart" holds for the exact quotients (milliseconds / 1000), not for the rounded floats.
- MicOnset.Tick, MicOnset.ReadAndProcess and MicOnset.ProcessFrames require a valid configuration with `hopSize > 0`. The source never checks the inspector's `hopSize`. With 0, the read buffer has length 0 (`Assets/MicOnsetDetector.cs:89`), so `readLen` is 0, and the frame loop `while (processedSamples + hopSize <= readLen)` (line 128) never ends: the game hangs. The model does not represent that non-terminating tick.
- MicOnset.Start takes the configuration as given. It does not derive `clipSamples` from `ActualRate`; `DefaultClipRate` relates the two for the default request.
- Overflow of Java `long` milliseconds and of C# `int` sample counts. Integers are unbounded.
- `AndroidAudioCaptureProxy.cs`, `AndroidAudioConfig.cs`, `Editor/SetupScene.cs` and `TapBeat.cs` are not part of this model. The tap-tempo, beat-grid, drift-correction and hit-judgement logic described for the game does not appear in the detector sources.
- OnsetAnalyzer.ToMono: requires `channels >= 1`, which an audio clip always has.
- OnsetAnalyzer.PickOnsets: requires `sampleRate > 0`, which a clip's frequency always is. The same holds for `Analyze`, `WindowSize` and `MinIntervalFrames`.
