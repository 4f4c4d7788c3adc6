# Haptic Sync — a verified Dafny model of its decision layers

Haptic Sync turns an audio file into vibration instructions. This project
models the pure decision logic around its audio primitives. The primitives
themselves — sample loading, RMS, spectral centroid, onset detection and
the sound classifier — enter the model as function parameters.

- **Full timeline** (`FullTimeline`, from `analyze_full_audio`). The samples
  are cut into one-second slots. Each slot's peak RMS energy becomes an
  integer intensity 0–100. That intensity yields a strength band
  (none/light/medium/strong), a vibrate flag and an action label
  (silence/slice/impact/sound). The summary counts the slots and the
  vibrating slots.
- **Precise events** (`PreciseEvents`, from `detect_precise_events`).
  - The onset threshold is `max(0.05, 1 - sensitivity)`.
  - The minimum gap becomes a wait in 256-sample frames.
  - Onset strengths are normalised by their maximum. An all-zero list
    divides 0 by 0, and each NaN strength scores as full intensity.
  - Each onset whose window is non-empty becomes an event with an
    intensity (0.6 × strength + 0.4 × loudness, capped at 1), a type
    (sharp/medium/heavy by brightness), a percentage and a duration of
    20–50 ms.
- **Android export** (`AndroidExport`, from the `android` branch of
  `generate_code`). The vibrating slots become the parallel `timings` and
  `amplitudes` arrays of a wait-then-vibrate waveform. The module also holds
  a corrected exporter (see Findings).
- **Sound-event timeline** (`SoundTimeline`, `SoundEvents`, from
  `classify_with_timeline` and `get_sound_events`).
  - 15600-sample windows are taken every `rate / 2` samples.
  - Every score at or above the threshold becomes an event, optionally
    filtered by a case-insensitive allow-list of name fragments.
  - The events are sorted stably by start time, then by confidence,
    highest first.
  - `get_sound_events` selects the events whose name contains a fragment.
- **Python semantics** (`PyOps`, `Text`): `int()` on a float (truncation),
  `range(lo, hi, step)`, ASCII `str.lower()` and substring `in`.

Numbers are exact: samples and scores are `real`, and sample counts are
`nat`. Two behaviours of the code shape the model:
- The full-timeline loop runs over `range(int(duration) + 1)`
  (haptic_sync.py:23), but it breaks as soon as a slot would start at or past
  the end of the audio (haptic_sync.py:27-28). The timeline therefore has
  `ceil(n / sr)` slots. For an exact multiple of the rate that is `n / sr`,
  one fewer than the loop bound (`FullTimeline.SlotCountVersusWholeSeconds`).
- Intensity has no lower clamp, and `int()` truncates toward zero. A peak
  energy at or below −0.002 therefore gives a negative intensity, and a
  peak energy between −0.002 and 0 gives 0. The model does not assume that
  energies are non-negative.

## Model

| member | source | states |
|---|---|---|
| PyOps.Trunc | haptic_sync.py:43 | Python `int()` of a float truncates toward zero: for x ≥ 0 the result r satisfies r ≤ x < r + 1; for x < 0 it satisfies r − 1 < x ≤ r |
| PyOps.TruncOfQuotient | haptic_sync.py:19-23 | `int(len(y) / sr)` equals the integer quotient `len(y) / sr` |
| PyOps.Range | timeline_classify.py:66 | `range(lo, hi, step)` yields `lo + k*step` for consecutive k, every element below `hi`, and stops at the first multiple that reaches `hi` |
| PyOps.RangeLength | timeline_classify.py:66 | `range(lo, hi, step)` has `(hi - lo - 1) / step + 1` elements when lo < hi, and none otherwise |
| Text.LowerChar | timeline_classify.py:93 | `lower()` of one character: the result is never upper case, and it shifts 'A'–'Z' by 32 and keeps every other character |
| Text.Lower | timeline_classify.py:93 | lower-casing a string keeps its length and lowers each character in place |
| Text.LowerIdempotent | timeline_classify.py:93 | lower-casing twice is the same as once |
| Text.ContainsIffOccurs | timeline_classify.py:93 | substring `in` holds exactly when the needle occurs at some position of the haystack |
| FullTimeline.Intensity | haptic_sync.py:43 | `min(100, int(max_energy*500))` is at most 100, non-negative for non-negative energy, exactly 100 iff energy ≥ 0.2, and otherwise the whole part of `energy*500` |
| FullTimeline.StrengthAndVibrate | haptic_sync.py:46-57 | the strength is none iff intensity < 5, light iff 5 ≤ intensity < 20, medium iff 20 ≤ intensity < 50, and strong iff intensity ≥ 50; vibrate holds iff the strength is medium or strong, iff intensity ≥ 20 |
| FullTimeline.StrengthMonotone | haptic_sync.py:46-57 | a higher intensity never gives a lower strength band |
| FullTimeline.ActionOf | haptic_sync.py:60-67 | silence iff intensity < 5; slice iff intensity ≥ 5 with more than 2 impacts and intensity > 15; impact iff intensity ≥ 50 and not a slice; sound iff 5 ≤ intensity < 50 and not a slice |
| FullTimeline.LabelsAgree | haptic_sync.py:46-67 | silence iff the strength is none; an impact is strong; a slice has some strength (light for intensity 16–19); a sound is never strong |
| FullTimeline.MakeSlot | haptic_sync.py:42-76 | a slot records its second and impact count and carries the intensity of its energy; its strength, vibrate flag and action are those the banding and action rules give for that intensity and impact count |
| FullTimeline.SlotCountIsLeastCover | haptic_sync.py:23-28 | the slot count is the least number of whole seconds reaching past the last sample, and is 0 exactly for empty audio |
| FullTimeline.SlotCountUnique | haptic_sync.py:23-28 | any count that covers the audio and whose last second is non-empty equals the slot count |
| FullTimeline.SlotStart | haptic_sync.py:24 | slot i starts at sample `i*sr`, which divided by the rate gives i with remainder 0 |
| FullTimeline.SlotEnd | haptic_sync.py:25 | slot i ends at `(i+1)*sr` or at the end of the audio, whichever comes first |
| FullTimeline.SlotAt | haptic_sync.py:24-76 | a slot that starts inside the audio has a non-empty segment; it is second i, label-consistent, and carries the intensity of the segment's peak energy and its impact count |
| FullTimeline.SlotCountVersusWholeSeconds | haptic_sync.py:23-28 | the slot count is `n / sr + 1` when a partial second remains and `n / sr` for an exact multiple |
| FullTimeline.SlotsPartitionSamples | haptic_sync.py:23-30 | the slots are non-empty, at most one second long, start at 0, follow each other without gaps, end at the last sample, and each sample lies in exactly one slot (the one at `k / sr`) |
| FullTimeline.SlotNonEmpty | haptic_sync.py:24-30 | every slot below the count starts before it ends and spans at most `sr` samples |
| FullTimeline.SampleInItsSlot | haptic_sync.py:23-30 | sample k lies in slot `k / sr`, which is below the slot count |
| FullTimeline.SlotOfSample | haptic_sync.py:23-30 | a sample lies in no slot other than `k / sr` |
| FullTimeline.LastSlotEnds | haptic_sync.py:25 | the last slot ends exactly at the end of the audio |
| FullTimeline.Vibrating | haptic_sync.py:231 | the selected slots are exactly the timeline's slots with the vibrate flag |
| FullTimeline.CountVibrating | haptic_sync.py:82 | the vibration count is the number of vibrating slots and never exceeds the number of slots |
| FullTimeline.LoopExitIsSlotCount | haptic_sync.py:23-28 | whether the loop ends after `int(duration) + 1` rounds or at the break, it has visited exactly the slot count |
| FullTimeline.AnalyzeFull | haptic_sync.py:13-84 | the timeline has one slot per second up to `ceil(n / sr)`; slot i has second i and is scored on samples `[i*sr, min((i+1)*sr, n))`; every slot is label-consistent; the total is the length; the vibration count is at most the total; the duration is `n / sr` |
| FullTimeline.SilentThreeSeconds | haptic_sync.py:13-84 | three seconds of zero energy give three slots, each with intensity 0, silence, no vibration and strength none |
| PreciseEvents.Threshold | haptic_sync.py:97 | the threshold is at least 0.05 and at least `1 - sensitivity`, and equals one of them |
| PreciseEvents.ThresholdAntitone | haptic_sync.py:97 | raising the sensitivity never raises the threshold, and up to sensitivity 0.95 it lowers it by the same amount |
| PreciseEvents.Wait | haptic_sync.py:104 | for a non-negative gap, the wait is the non-negative integer `floor(gap*sr / (1000*256))` |
| PreciseEvents.WaitMonotone | haptic_sync.py:104 | a longer minimum gap never gives a shorter wait |
| PreciseEvents.DefaultWait | haptic_sync.py:87-104 | the default 30 ms gap at 22050 Hz waits 2 frames |
| PreciseEvents.SeqMax | haptic_sync.py:112 | `np.max` is an element of the list and bounds every element |
| PreciseEvents.Strengths | haptic_sync.py:109 | the strengths are the onsets' strengths, in order |
| PreciseEvents.Normalize | haptic_sync.py:109-112 | normalising keeps the length, and an element is NaN iff every strength is zero (numpy's 0 / 0) |
| PreciseEvents.NormalizeRange | haptic_sync.py:111-112 | every normalised strength is NaN or lies in [0, 1]; when some strength is non-zero, all are real, every occurrence of the maximum maps to 1, and the order between any two strengths is kept |
| PreciseEvents.PositiveMaximum | haptic_sync.py:112 | a list with a non-zero strength has a positive maximum, and each normalised element is the strength divided by it |
| PreciseEvents.NormalizedElement | haptic_sync.py:112 | for a list with a non-zero strength, one normalised strength is real, lies in [0, 1], and is 1 where the strength is the maximum |
| PreciseEvents.NormalizedPair | haptic_sync.py:112 | for a list with a non-zero strength, normalising keeps the order between two strengths, in both directions |
| PreciseEvents.NormalizedMaximumIsOne | haptic_sync.py:111-112 | a list with a non-zero strength normalises to a list containing the value 1 |
| PreciseEvents.Brightness | haptic_sync.py:125 | brightness is at most 1, non-negative for a non-negative centroid, exactly 1 iff the centroid reaches 5000 Hz, and `centroid / 5000` up to there |
| PreciseEvents.Loudness | haptic_sync.py:129 | loudness is at most 1, non-negative for a non-negative RMS, `rms*15` while that is at most 1, and 1 from there on |
| PreciseEvents.EventIntensity | haptic_sync.py:132 | intensity is at most 1, non-negative for non-negative inputs, and equal to `0.6*strength + 0.4*loudness` while both are at most 1 |
| PreciseEvents.EventIntensityMonotone | haptic_sync.py:132 | a larger strength and loudness never give a smaller intensity |
| PreciseEvents.TypeOf | haptic_sync.py:135-140 | sharp iff brightness > 0.5; heavy iff brightness ≤ 0.25; medium otherwise |
| PreciseEvents.TypeMonotone | haptic_sync.py:135-140 | a brighter window never gives a heavier type |
| PreciseEvents.DurationMs | haptic_sync.py:148 | `int(20 + intensity*30)` is the whole part of that value, and lies in [20, 50] for intensity in [0, 1] |
| PreciseEvents.DurationMonotone | haptic_sync.py:148 | a higher intensity never gives a shorter duration |
| PreciseEvents.IntensityPercent | haptic_sync.py:146 | the percentage is the whole part of `intensity*100`, and lies in [0, 100] for intensity in [0, 1] |
| PreciseEvents.MakeEvent | haptic_sync.py:121-149 | an event carries its onset time in seconds and milliseconds and the type of its brightness; a real strength gives intensity `min(1, 0.6*strength + 0.4*loudness)`; a NaN strength gives intensity 1.0, 100 percent and 50 ms, because `min(1.0, nan)` keeps 1.0; the percentage and duration are those of the intensity; for a NaN or in-range strength all three are in range |
| PreciseEvents.FrameTime | haptic_sync.py:108 | an onset time is non-negative, and times the rate it gives the frame's first sample `frame*256` |
| PreciseEvents.StartSampleExact | haptic_sync.py:108-117 | in exact arithmetic, `int(frames_to_time(f) * sr)` recovers the frame's first sample `f*256` |
| PreciseEvents.WindowStart | haptic_sync.py:117 | in exact arithmetic, an event window starts at the onset frame's first sample |
| PreciseEvents.WindowLength | haptic_sync.py:118 | the window is `int(0.05*sr)` samples long |
| PreciseEvents.WindowEnd | haptic_sync.py:118 | the window ends at `start + int(0.05*sr)` or at the end of the audio, whichever comes first |
| PreciseEvents.KeptIff | haptic_sync.py:117-120 | an onset yields an event iff it starts inside the audio and the window length is positive |
| PreciseEvents.WindowAt22050 | haptic_sync.py:118 | at 22050 Hz the window is 1102 samples long |
| PreciseEvents.CountKept | haptic_sync.py:116-120 | at most one event per onset |
| PreciseEvents.BuildEvents | haptic_sync.py:114-149 | the number of events is the number of onsets whose window is non-empty |
| PreciseEvents.BuildEventsConcat | haptic_sync.py:114-149 | scoring a concatenation of onsets (with their strengths) gives the events of the first part followed by those of the second |
| PreciseEvents.BuildEventsSingle | haptic_sync.py:116-149 | a single onset gives one event, scored from its time, its normalised strength and the measure of its own window `[start, end)`, when that window is non-empty, and no event otherwise |
| PreciseEvents.EachKeptOnsetScored | haptic_sync.py:116-149 | when every onset's window is non-empty, there is one event per onset and event k is scored from onset k's time, normalised strength and window |
| PreciseEvents.DetectPrecise | haptic_sync.py:87-157 | the events are those scored from the detected onsets with their strengths normalised by the maximum; `total_events` is the event count, equals the number of kept onsets and is at most the number of onsets; the duration is `n / sr`; the sensitivity is echoed |
| PreciseEvents.FrameTimeMonotone | haptic_sync.py:108 | a later frame never has an earlier time |
| PreciseEvents.EventsFromOnsets | haptic_sync.py:108-142 | every event's time is the time of some onset |
| PreciseEvents.EventsInOnsetOrder | haptic_sync.py:116-149 | onsets in frame order give events in time order, none earlier than the first onset |
| PreciseEvents.NoOnsetsNoEvents | haptic_sync.py:109-116 | no onsets gives no events |
| PreciseEvents.EventRanges | haptic_sync.py:131-148 | with every normalised strength NaN or in [0, 1], every event has intensity in [0, 1], percentage in [0, 100] and duration in [20, 50] ms |
| PreciseEvents.NaNEventsAtFull | haptic_sync.py:131-148 | with every normalised strength NaN, every event has intensity 1.0, percentage 100 and duration 50 ms |
| PreciseEvents.SilentEnvelopeGivesFullEvents | haptic_sync.py:109-148 | when every detected onset has strength zero, every event has intensity 1.0, percentage 100 and duration 50 ms |
| PreciseEvents.PreciseEventsWellFormed | haptic_sync.py:87-157 | for any detector and window measure, every event has intensity in [0, 1], percentage in [0, 100] and duration in [20, 50] ms; every event time is the time of some onset; the events are in time order when the onsets are in frame order |
| PreciseEvents.SingleBrightOnset | haptic_sync.py:109-149 | a single onset inside the audio, positive or zero, whose window centroid is above 2500 Hz gives exactly one sharp event at its time with intensity at least 0.6 |
| AndroidExport.Amplitude | haptic_sync.py:241 | `min(255, intensity*255 // 100)` is at most 255, non-negative for non-negative intensity, at least 1 for intensity ≥ 1, and the floor of `intensity*2.55` for intensity in [0, 100] |
| AndroidExport.Entries | haptic_sync.py:236-241 | one slot's entries end with a 200 ms entry of its amplitude, preceded by a silent entry of the gap's length exactly when the gap is positive |
| AndroidExport.SlotEntries | haptic_sync.py:234-241 | a slot's entries end with a 200 ms pulse of its scaled intensity, preceded by a silent gap of `(second - last)*1000` ms exactly when the slot comes after `last` |
| AndroidExport.EncodeFrom | haptic_sync.py:235-242 | the two arrays have equal length, with between one and two entries per vibrating slot |
| AndroidExport.EncodedEntries | haptic_sync.py:236-241 | every timing is positive, every amplitude is at most 255, and every non-zero amplitude lasts exactly 200 ms |
| AndroidExport.EncodedAmplitudesNonNegative | haptic_sync.py:241 | non-negative intensities give non-negative amplitudes |
| AndroidExport.AndroidWaveform | haptic_sync.py:230-243 | the exported arrays have equal length, every timing is positive and every amplitude is at most 255 |
| AndroidExport.Decode | haptic_sync.py:236-241 | reading a waveform back yields at most one pulse per entry |
| AndroidExport.DecodedPulses | haptic_sync.py:236-241 | every decoded pulse has one of the waveform's non-zero amplitudes; with non-negative durations the pulses fall on strictly increasing seconds, none before the starting second |
| AndroidExport.Pulses | haptic_sync.py:231-241 | one (second, amplitude) pulse per vibrating slot, in order |
| AndroidExport.DecodeEntries | haptic_sync.py:236-241 | a gap of k whole seconds followed by a pulse decodes to one pulse k seconds later |
| AndroidExport.DecodeSlotEntries | haptic_sync.py:236-242 | the entries of one slot decode to that slot's pulse, and decoding resumes one second later |
| AndroidExport.DecodeEncode | haptic_sync.py:234-242 | for strictly increasing seconds with audible amplitudes, decoding the encoding gives back each slot's second and amplitude in order |
| AndroidExport.GapsAreWholeSeconds | haptic_sync.py:236-239 | every amplitude-0 entry is a positive multiple of 1000 ms |
| AndroidExport.VibratingKeepsOrder | haptic_sync.py:231 | selecting the vibrating slots keeps the seconds strictly increasing |
| AndroidExport.AndroidRoundTrip | haptic_sync.py:230-242 | the exported waveform decodes to exactly the vibrating slots' (second, amplitude) pulses; amplitudes lie in [0, 255], zero entries are whole-second gaps and non-zero entries last 200 ms |
| AndroidExport.AnalyzedTimelinesExport | haptic_sync.py:69-82 | a timeline produced by the full analysis meets the exporter's assumptions, and exports one pulse per counted vibration second |
| AndroidExport.OnsetsEntries | haptic_sync.py:236-240 | a pulse after a gap starts when the gap ends, and the next entry starts 200 ms later |
| AndroidExport.OnsetsSlotEntries | haptic_sync.py:236-242 | a slot's pulse starts `(second - last)` seconds after the clock |
| AndroidExport.OnsetsFirstPulse | haptic_sync.py:235-242 | the first pulse of an encoding starts at its slot's gap, and the rest start 200 ms later |
| AndroidExport.DriftsFromTail | haptic_sync.py:235-242 | the drift formula for the tail extends to the whole list |
| AndroidExport.AsWrittenPulseDrift | haptic_sync.py:236-242 | in the waveform as written, pulse j starts `800*j` ms before its slot's second |
| AndroidExport.AsWrittenConsecutiveSecondsOverlap | haptic_sync.py:236-242 | two strong slots at seconds 0 and 1 export as `[200, 200] / [153, 153]`, so the second pulse starts at 200 ms instead of 1000 ms |
| AndroidExport.AlignedFrom | haptic_sync.py:235-242 | the corrected encoding has equal-length arrays with one or two entries per slot |
| AndroidExport.AlignedWaveform | haptic_sync.py:230-243 | the corrected waveform has equal-length arrays |
| AndroidExport.AlignedFirstPulse | haptic_sync.py:236-242 | the corrected first pulse starts on its second, and the rest start 200 ms later |
| AndroidExport.AlignedFromTail | haptic_sync.py:236-242 | if the tail's pulses start on their seconds, so do all pulses |
| AndroidExport.AlignedPulsesOnTheirSeconds | haptic_sync.py:236-242 | in the corrected encoding, pulse j starts exactly at `1000 * second` of slot j |
| AndroidExport.AlignedWaveformOnSeconds | haptic_sync.py:230-243 | the corrected waveform has one pulse per vibrating slot, each starting at its slot's second |
| SoundEvents.PrecedesIsTotalPreorder | timeline_classify.py:106 | the key `(time_start, -confidence)` orders events totally and transitively, and two events precede each other iff their keys are equal |
| SoundEvents.Insert | timeline_classify.py:106 | insertion makes the list one element longer |
| SoundEvents.InsertCounts | timeline_classify.py:106 | insertion adds exactly the one element: the multiset grows by it and by nothing else |
| SoundEvents.InsertSorted | timeline_classify.py:106 | inserting into a sorted list keeps it sorted |
| SoundEvents.Sort | timeline_classify.py:106 | the sorted timeline is a permutation of its input, sorted by start time and then by descending confidence |
| SoundEvents.WithKeyOfInsert | timeline_classify.py:106 | insertion puts the new event before every event with its key |
| SoundEvents.SortIsStable | timeline_classify.py:106 | the sort keeps the original relative order of events with equal keys |
| SoundTimeline.HopSamples | timeline_classify.py:38 | `int(rate * 0.5)` is `rate / 2` |
| SoundTimeline.WindowStarts | timeline_classify.py:66 | windows start at `0, H, 2H, …`; each fits whole in the audio; there are none below 15600 samples and `(n - 15600) / H + 1` otherwise; the next start would not fit |
| SoundTimeline.Chunk | timeline_classify.py:67 | a chunk is the 15600 samples from its start |
| SoundTimeline.WindowEvent | timeline_classify.py:79-103 | the start time is `start / rate`; the end is 0.975 s later; the centre is their midpoint; the name, confidence and class id are the label's |
| SoundTimeline.EventsFrom | timeline_classify.py:84-103 | one window's events all share its start time, come in increasing class order from the scanned range, and each spans 0.975 s, is named by its class, has confidence at or above the threshold and passes the allow-list |
| SoundTimeline.EventsFromMembership | timeline_classify.py:84-103 | an event comes from a window iff some label scores at or above the threshold, passes the allow-list, and the event is that label's |
| SoundTimeline.WindowEventsMembership | timeline_classify.py:84-103 | the same, for all labels of one window |
| SoundTimeline.Emitted | timeline_classify.py:66-103 | every emitted event spans 0.975 s, is named by its label's class, has confidence at or above the threshold and passes the allow-list |
| SoundTimeline.EmittedMembership | timeline_classify.py:66-103 | an event is emitted iff some window reports its label |
| SoundTimeline.WindowStartsIncrease | timeline_classify.py:66 | the window starts strictly increase |
| SoundTimeline.EmittedInVisitOrder | timeline_classify.py:66-103 | for strictly increasing window starts, the emitted events come window by window and label by label: each has an earlier start time than every later one, or the same start and a lower class id; none starts before the first window |
| SoundTimeline.RepeatFreeCounts | timeline_classify.py:66-106 | a list without repeats holds each of its events exactly once |
| SoundTimeline.Duration | timeline_classify.py:54 | the duration times the rate is the sample count, and is non-negative |
| SoundTimeline.Classify | timeline_classify.py:16-120 | fails iff the hop is 0 or a reported score has no class name, and reports which of the two; otherwise `total_events` is the timeline length, the timeline is sorted and a permutation of all emitted events, and the result echoes duration, rate, threshold, chunk and hop durations and the file |
| SoundTimeline.TimelineMembership | timeline_classify.py:66-106 | an event is in the final timeline iff some window reports its label |
| SoundTimeline.TimelineCountsOnce | timeline_classify.py:66-116 | every event that some window reports occurs in the final timeline exactly once, and no other event occurs, so `total_events` counts each reported event once |
| SoundTimeline.TimelineIsStable | timeline_classify.py:106 | events with equal keys appear in the timeline in the order the windows emitted them |
| SoundTimeline.EventsInsideAudio | timeline_classify.py:66-81 | at 16 kHz every event lies within the audio's duration and spans 0.975 s |
| SoundTimeline.ShortAudioHasNoEvents | timeline_classify.py:66-117 | audio shorter than 15600 samples succeeds with an empty timeline and zero events |
| SoundTimeline.QuietWindowHasNoEvents | timeline_classify.py:84 | a window whose scores are all below the threshold has no events |
| SoundTimeline.QuietWindowsHaveNoEvents | timeline_classify.py:66-103 | if no score reaches the threshold, no window emits anything |
| SoundTimeline.QuietAudioHasNoEvents | timeline_classify.py:66-117 | a model that never reaches the threshold gives a successful, empty timeline |
| SoundTimeline.AllowListRules | timeline_classify.py:91-94 | the empty allow-list keeps every name; a list holding the name itself or the empty fragment keeps it; a list made of two non-empty parts keeps a name iff one of the parts does |
| SoundTimeline.AllowListKeepsMatchingLabels | timeline_classify.py:91-94 | with allow-list `["slice"]`, the label "Slice" is kept and "Door" is dropped |
| SoundTimeline.MatchingEvents | timeline_classify.py:168 | the selection is no longer than the list it selects from |
| SoundTimeline.MatchingMembership | timeline_classify.py:168 | the selected events are exactly the events whose name contains the fragment, ignoring case |
| SoundTimeline.GetSoundEvents | timeline_classify.py:166-169 | the result is exactly the timeline's events whose name contains the fragment, ignoring case, and is no longer than the timeline |
| SoundTimeline.MatchingConcat | timeline_classify.py:168 | selecting from a concatenation selects from each part and keeps them in order, so the selection follows the timeline's order |
| SoundTimeline.MatchingCounts | timeline_classify.py:168 | a matching event keeps its number of occurrences, and any other event has none |
| SoundTimeline.MatchingIdempotent | timeline_classify.py:166-169 | selecting twice with the same name equals selecting once |
| SoundTimeline.MatchingKeepsOrder | timeline_classify.py:168 | selecting from a sorted timeline gives a sorted list |
| SoundTimeline.MatchingAll | timeline_classify.py:168 | when every event matches, the selection is the whole list |
| SoundTimeline.LookupOfOnlyTargetIsEverything | timeline_classify.py:166-169 | after classifying with allow-list `[name]`, looking up `name` returns the whole timeline |

## Left out

- Audio loading, mono mixing, int16 scaling and resampling are I/O. The model starts from the sample sequence and its rate.
- Feature extraction is a function parameter: RMS, onset strength, onset detection and spectral centroid. `frames_to_time` is not a parameter: it is modelled as `frame * 256 / sr` (`PreciseEvents.FrameTime`). Full mode takes a per-slot extractor (peak RMS, onset count). Precise mode takes a detector `(threshold, wait) -> onsets` and a window measure `(mean centroid, mean RMS)`. The unused `avg_energy` is omitted.
- The TFLite interpreter and the class-map CSV become a score function on a 15600-sample chunk and a name table. `params.SAMPLE_RATE` is a parameter, with the 16 kHz value used by `SoundTimeline.EventsInsideAudio`. Averaging several score frames per chunk belongs to the score function.
- Float rounding is not modelled: `round(x, 3)`, `round(conf, 4)`, float32 chunks and double arithmetic. All values are exact reals. The sort at timeline_classify.py:106 uses the rounded values, whereas the model sorts on the exact ones.
- Printing, bars, emoji tables, the JSON and Swift branches of `generate_code`, and the command line are formatting or I/O.
- `lower()` is modelled on ASCII only, with no Unicode case folding.
- NaN is modelled only where the code creates it. An all-zero onset-strength list divides 0 by 0 and becomes NaN (`NormStrength.NotANumber`), and Python's `min(1.0, nan)` keeps 1.0. NaN or infinite values coming out of the audio library are not modelled.
- Onset strengths, centroids and RMS values are non-negative by type (`PreciseEvents.NonNegReal`). librosa's onset envelope is rectified, and a mean centroid or a mean RMS cannot be negative.
- `target_sounds=None` and an empty list behave the same in the code, and both are modelled as the empty sequence.
- An index past the class table raises `IndexError` in the code. It is modelled as the `UnknownClass` failure of `SoundTimeline.Classify`, and a zero hop (`range` with step 0, `ValueError`) as `NoHop`.
- PreciseEvents.StartSampleExact: holds in exact arithmetic only. In double precision `frames_to_time(f) * sr` can come out just below `f*256` (for example f = 15 at 22050 Hz), and `int()` then gives the sample before it.
- PreciseEvents.WindowStart: holds in exact arithmetic only. Where the double product falls short, the code's window starts one sample earlier than the model's. When the audio length n is a multiple of 256, an onset at frame n/256 then gets a one-sample window in the code and an event, where the model's window is empty and it has no event.
- PreciseEvents.Normalize: states the length and where NaN appears, but not the values. The values are in `PositiveMaximum` (each element is the strength divided by the maximum) and `NormalizeRange` (range, maximum and order).
- AndroidExport.EncodeFrom: states only the array lengths. Entry contents, gaps and decoding are in `EncodedEntries`, `GapsAreWholeSeconds` and `DecodeEncode`.
- AndroidExport.AndroidWaveform: does not state non-negative amplitudes, which need non-negative intensities. `AndroidRoundTrip` states them for analysed timelines.
- AndroidExport.AlignedFrom: states only the array lengths. The pulse start times are in `AlignedPulsesOnTheirSeconds`.
- AndroidExport.AlignedWaveform: states only the array lengths. The pulse start times are in `AlignedWaveformOnSeconds`.

## Findings

| source | as written | input that shows it | evidently intended | confidence | as-written member | corrected member |
|---|---|---|---|---|---|---|
| haptic_sync.py:236-242 | after each 200 ms pulse the exporter sets `last = second + 1`, as if the pulse had lasted a whole second, so each later gap is 800 ms short and pulse j starts `800*j` ms early | two strong slots at seconds 0 and 1 give `timings = [200, 200]`, so the second pulse starts at 200 ms instead of 1000 ms | every pulse starts at `1000 * second` of its slot: the gap before a pulse is measured from the end of the previous 200 ms pulse | medium, not executed | AndroidExport.AsWrittenPulseDrift | AndroidExport.AlignedPulsesOnTheirSeconds |
