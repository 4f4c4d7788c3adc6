/**
 Precise mode of the haptic synchroniser: the sensitivity and minimum gap are
 turned into the onset detector's threshold and wait, the detected onset
 strengths are normalised by their maximum, and every onset whose 50 ms
 window lies inside the audio becomes a haptic event whose intensity, type
 and duration follow from its strength and the window's brightness and
 loudness.

 Onset detection and the per-window measurements are black boxes: `detect`
 maps the threshold and wait to onset frames (hop 256 samples) with their
 onset-envelope strengths, and `measure` maps a window of samples to the
 mean spectral centroid and mean RMS over it. Arithmetic is on exact reals.
 */
module PreciseEvents {
  import opened PyOps

  /** Samples per onset-envelope frame. */
  const HopLength: nat := 256
  /** The detection threshold never drops below this. */
  const MinThreshold: real := 0.05
  /** Length of the window measured after each onset, in seconds. */
  const WindowSeconds: real := 0.05
  /** A mean spectral centroid of this many Hz counts as fully bright. */
  const CentroidReference: real := 5000.0
  const LoudnessScale: real := 15.0
  const StrengthWeight: real := 0.6
  const LoudnessWeight: real := 0.4
  const SharpAbove: real := 0.5
  const MediumAbove: real := 0.25
  const BaseDurationMs: real := 20.0
  const DurationSpanMs: real := 30.0

  /**
   A real that is never negative: the onset envelope is rectified, and a mean
   spectral centroid or a mean RMS cannot be negative.
   */
  type NonNegReal = r: real | 0.0 <= r

  /** A detected onset: its envelope frame and the envelope's value there. */
  datatype Onset = Onset(frame: nat, strength: NonNegReal)

  /** What the audio library measures over one event window. */
  datatype WindowFeatures = WindowFeatures(centroid: NonNegReal, rms: NonNegReal)

  /** A normalised strength: a real, or the NaN numpy produces for 0 / 0. */
  datatype NormStrength = Finite(v: real) | NotANumber
  {
    /** NaN, or a real in [0, 1]. */
    predicate InUnit()
    {
      NotANumber? || 0.0 <= v <= 1.0
    }
  }

  datatype HapticType = Sharp | Medium | Heavy
  {
    function Name(): string
    {
      match this
      case Sharp => "sharp"
      case Medium => "medium"
      case Heavy => "heavy"
    }

    /** Heavier types rank lower. */
    function Rank(): nat
    {
      match this
      case Heavy => 0
      case Medium => 1
      case Sharp => 2
    }
  }

  datatype HapticEvent = HapticEvent(timeMs: real, timeSec: real, intensity: real, intensityPercent: int, kind: HapticType, durationMs: int)

  datatype PreciseResult = PreciseResult(file: string, durationSec: real, totalEvents: nat, sensitivity: real, events: seq<HapticEvent>)

  // ---- Detector settings ----

  /** The onset detector's peak threshold: `max(0.05, 1.0 - sensitivity)`. */
  function Threshold(sensitivity: real): (t: real)
    ensures t >= MinThreshold && t >= 1.0 - sensitivity
    ensures t == MinThreshold || t == 1.0 - sensitivity
  {
    MaxReal(MinThreshold, 1.0 - sensitivity)
  }

  /** A higher sensitivity never raises the threshold; below 0.95 it lowers it one for one. */
  lemma ThresholdAntitone(s1: real, s2: real)
    requires s1 <= s2
    ensures Threshold(s2) <= Threshold(s1)
    ensures s2 <= 0.95 ==> Threshold(s1) - Threshold(s2) == s2 - s1
  {
  }

  /** The minimum gap in onset frames: `int(min_gap_ms * sr / 1000 / 256)`. */
  function Wait(minGapMs: int, sr: nat): (w: int)
    ensures 0 <= minGapMs ==> 0 <= w && w == (minGapMs * sr) / (1000 * HopLength)
  {
    var x := (minGapMs * sr) as real / 1000.0 / HopLength as real;
    if 0 <= minGapMs then
      assert x == (minGapMs * sr) as real / (1000 * HopLength) as real;
      TruncOfQuotient(minGapMs * sr, 1000 * HopLength);
      Trunc(x)
    else
      Trunc(x)
  }

  /** A longer minimum gap never gives a shorter wait. */
  lemma WaitMonotone(g1: nat, g2: nat, sr: nat)
    requires g1 <= g2
    ensures Wait(g1, sr) <= Wait(g2, sr)
  {
    MulLeft(g1, g2, sr);
    DivMonotone(g1 * sr, g2 * sr, 1000 * HopLength);
  }

  /** With the defaults (30 ms at 22050 Hz) the detector waits 2 frames. */
  lemma DefaultWait()
    ensures Wait(30, 22050) == 2
  {
  }

  // ---- Normalisation ----

  /** The largest element. */
  function SeqMax(s: seq<real>): (m: real)
    requires |s| > 0
    ensures forall i :: 0 <= i < |s| ==> s[i] <= m
    ensures exists i :: 0 <= i < |s| && s[i] == m
  {
    if |s| == 1 then s[0]
    else
      var m := SeqMax(s[1..]);
      assert forall i :: 1 <= i < |s| ==> s[i] == s[1..][i - 1];
      if s[0] >= m then s[0] else m
  }

  function Strengths(onsets: seq<Onset>): (s: seq<NonNegReal>)
    ensures |s| == |onsets|
    ensures forall i :: 0 <= i < |onsets| ==> s[i] == onsets[i].strength
  {
    seq(|onsets|, i requires 0 <= i < |onsets| => onsets[i].strength)
  }

  /** Every strength is zero (vacuously so for an empty list). */
  predicate AllZero(s: seq<NonNegReal>)
  {
    forall j :: 0 <= j < |s| ==> s[j] == 0.0
  }

  /**
   `onset_strengths / np.max(onset_strengths)`: every strength divided by the
   largest one; an empty list stays empty. When every strength is zero numpy
   divides 0 by 0, and every element becomes NaN.
   */
  function Normalize(s: seq<NonNegReal>): (r: seq<NormStrength>)
    ensures |r| == |s|
    ensures forall i :: 0 <= i < |s| ==> (r[i] == NotANumber <==> AllZero(s))
  {
    if |s| == 0 then []
    else
      var m := SeqMax(s);
      if m == 0.0 then seq(|s|, i => NotANumber)
      else
        assert !AllZero(s);
        seq(|s|, i requires 0 <= i < |s| => Finite(s[i] / m))
  }

  lemma DivisionKeepsOrder(a: real, b: real, m: real)
    requires m > 0.0
    ensures a <= b <==> a / m <= b / m
  {
    if a <= b {
      assert b / m - a / m == (b - a) / m;
    } else {
      assert a / m - b / m == (a - b) / m;
    }
  }

  lemma DivSelf(m: real)
    requires m != 0.0
    ensures m / m == 1.0
  {
  }

  /**
   Every normalised strength is NaN or lies in [0, 1]. When some strength is
   not zero, all of them are real, every occurrence of the maximum maps to
   exactly 1, and the order between any two strengths is kept.
   */
  lemma NormalizeRange(s: seq<NonNegReal>)
    ensures forall i :: 0 <= i < |s| ==> Normalize(s)[i].InUnit()
    ensures !AllZero(s) ==>
              (forall i :: 0 <= i < |s| ==> Normalize(s)[i].Finite?) &&
              (forall i :: 0 <= i < |s| && s[i] == SeqMax(s) ==> Normalize(s)[i] == Finite(1.0)) &&
              (forall i, j :: 0 <= i < |s| && 0 <= j < |s| ==> (s[i] <= s[j] <==> Normalize(s)[i].v <= Normalize(s)[j].v))
  {
    var r := Normalize(s);
    if AllZero(s) {
      forall i | 0 <= i < |s|
        ensures r[i].InUnit()
      {
        assert r[i] == NotANumber;
      }
    } else {
      forall i | 0 <= i < |s|
        ensures r[i].Finite? && 0.0 <= r[i].v <= 1.0 && (s[i] == SeqMax(s) ==> r[i] == Finite(1.0))
      {
        NormalizedElement(s, i);
      }
      forall i, j | 0 <= i < |s| && 0 <= j < |s|
        ensures s[i] <= s[j] <==> r[i].v <= r[j].v
      {
        NormalizedPair(s, i, j);
      }
    }
  }

  /** A list with a non-zero strength has a positive maximum, and its normalised elements are the quotients by it. */
  lemma PositiveMaximum(s: seq<NonNegReal>, i: int)
    requires !AllZero(s) && 0 <= i < |s|
    ensures SeqMax(s) > 0.0 && Normalize(s)[i] == Finite(s[i] / SeqMax(s))
  {
    var j :| 0 <= j < |s| && s[j] != 0.0;
    assert s[j] <= SeqMax(s);
  }

  lemma NormalizedElement(s: seq<NonNegReal>, i: int)
    requires !AllZero(s) && 0 <= i < |s|
    ensures Normalize(s)[i].Finite? && 0.0 <= Normalize(s)[i].v <= 1.0
    ensures s[i] == SeqMax(s) ==> Normalize(s)[i] == Finite(1.0)
  {
    PositiveMaximum(s, i);
    var m := SeqMax(s);
    var x := s[i];
    assert 0.0 <= x <= m;
    DivisionKeepsOrder(0.0, x, m);
    DivisionKeepsOrder(x, m, m);
    DivSelf(m);
    assert 0.0 / m == 0.0;
  }

  lemma NormalizedPair(s: seq<NonNegReal>, i: int, j: int)
    requires !AllZero(s) && 0 <= i < |s| && 0 <= j < |s|
    ensures Normalize(s)[i].Finite? && Normalize(s)[j].Finite?
    ensures s[i] <= s[j] <==> Normalize(s)[i].v <= Normalize(s)[j].v
  {
    PositiveMaximum(s, i);
    PositiveMaximum(s, j);
    DivisionKeepsOrder(s[i], s[j], SeqMax(s));
  }

  /** A list with a non-zero strength normalises to a list that contains the value 1. */
  lemma NormalizedMaximumIsOne(s: seq<NonNegReal>)
    requires !AllZero(s)
    ensures exists i :: 0 <= i < |s| && Normalize(s)[i] == Finite(1.0)
  {
    var i :| 0 <= i < |s| && s[i] == SeqMax(s);
    NormalizedElement(s, i);
  }

  // ---- Scoring one event ----

  /** `min(1.0, centroid / 5000)`. */
  function Brightness(centroid: real): (b: real)
    ensures b <= 1.0
    ensures 0.0 <= centroid ==> 0.0 <= b
    ensures b == 1.0 <==> centroid >= CentroidReference
    ensures centroid <= CentroidReference ==> b == centroid / CentroidReference
  {
    MinReal(1.0, centroid / CentroidReference)
  }

  /** `min(1.0, rms * 15)`. */
  function Loudness(rms: real): (l: real)
    ensures l <= 1.0
    ensures 0.0 <= rms ==> 0.0 <= l
    ensures rms * LoudnessScale <= 1.0 ==> l == rms * LoudnessScale
    ensures rms * LoudnessScale >= 1.0 ==> l == 1.0
  {
    MinReal(1.0, rms * LoudnessScale)
  }

  /** `min(1.0, strength * 0.6 + loudness * 0.4)`; there is no lower clamp. */
  function EventIntensity(strength: real, loudness: real): (r: real)
    ensures r <= 1.0
    ensures 0.0 <= strength && 0.0 <= loudness ==> 0.0 <= r
    ensures strength <= 1.0 && loudness <= 1.0 ==> r == StrengthWeight * strength + LoudnessWeight * loudness
  {
    MinReal(1.0, strength * StrengthWeight + loudness * LoudnessWeight)
  }

  /**
   The intensity for a normalised strength. A NaN sum never compares below
   1.0, so Python's `min(1.0, nan)` keeps its first argument and gives 1.0.
   */
  function ScoredIntensity(strength: NormStrength, loudness: real): (r: real)
    ensures r <= 1.0
    ensures strength.InUnit() && 0.0 <= loudness ==> 0.0 <= r
  {
    match strength
    case NotANumber => 1.0
    case Finite(v) => EventIntensity(v, loudness)
  }

  /** A stronger onset or a louder window never lowers the intensity. */
  lemma EventIntensityMonotone(s1: real, l1: real, s2: real, l2: real)
    requires s1 <= s2 && l1 <= l2
    ensures EventIntensity(s1, l1) <= EventIntensity(s2, l2)
  {
  }

  /** Sharp above 0.5 brightness, medium above 0.25, heavy otherwise. */
  function TypeOf(brightness: real): (t: HapticType)
    ensures t == Sharp <==> brightness > SharpAbove
    ensures t == Heavy <==> brightness <= MediumAbove
  {
    if brightness > SharpAbove then Sharp
    else if brightness > MediumAbove then Medium
    else Heavy
  }

  /** A brighter window never gives a heavier type. */
  lemma TypeMonotone(b1: real, b2: real)
    requires b1 <= b2
    ensures TypeOf(b1).Rank() <= TypeOf(b2).Rank()
  {
  }

  /** `int(20 + intensity * 30)`: between 20 and 50 ms for an intensity in [0, 1]. */
  function DurationMs(intensity: real): (d: int)
    ensures 0.0 <= intensity <= 1.0 ==> 20 <= d <= 50
    ensures 0.0 <= intensity ==> d as real <= BaseDurationMs + intensity * DurationSpanMs < d as real + 1.0
  {
    Trunc(BaseDurationMs + intensity * DurationSpanMs)
  }

  lemma DurationMonotone(i1: real, i2: real)
    requires i1 <= i2
    ensures DurationMs(i1) <= DurationMs(i2)
  {
    TruncMonotone(BaseDurationMs + i1 * DurationSpanMs, BaseDurationMs + i2 * DurationSpanMs);
  }

  /** `int(intensity * 100)`: between 0 and 100 for an intensity in [0, 1]. */
  function IntensityPercent(intensity: real): (p: int)
    ensures 0.0 <= intensity <= 1.0 ==> 0 <= p <= 100
    ensures 0.0 <= intensity ==> p as real <= intensity * 100.0 < p as real + 1.0
  {
    Trunc(intensity * 100.0)
  }

  /** The event for an onset at `time` seconds with normalised `strength`, from its window's measurements. */
  function MakeEvent(time: real, strength: NormStrength, f: WindowFeatures): (e: HapticEvent)
    ensures e.timeSec == time && e.timeMs == time * 1000.0
    ensures e.kind == TypeOf(Brightness(f.centroid))
    ensures e.intensity <= 1.0
    ensures strength.Finite? ==> e.intensity == EventIntensity(strength.v, Loudness(f.rms))
    ensures strength.NotANumber? ==> e.intensity == 1.0 && e.intensityPercent == 100 && e.durationMs == 50
    ensures e.intensityPercent == IntensityPercent(e.intensity) && e.durationMs == DurationMs(e.intensity)
    ensures strength.InUnit() ==>
              0.0 <= e.intensity && 0 <= e.intensityPercent <= 100 && 20 <= e.durationMs <= 50
  {
    var intensity := ScoredIntensity(strength, Loudness(f.rms));
    HapticEvent(time * 1000.0, time, intensity, IntensityPercent(intensity), TypeOf(Brightness(f.centroid)), DurationMs(intensity))
  }

  // ---- Event windows ----

  /** `frames_to_time`: the onset frame's start in seconds. */
  function FrameTime(frame: nat, sr: nat): (t: real)
    requires sr > 0
    ensures 0.0 <= t && t * sr as real == (frame * HopLength) as real
  {
    (frame * HopLength) as real / sr as real
  }

  /** In exact arithmetic `int(time * sr)` recovers the frame's first sample. */
  lemma StartSampleExact(frame: nat, sr: nat)
    requires sr > 0
    ensures Trunc(FrameTime(frame, sr) * sr as real) == frame * HopLength
  {
    assert FrameTime(frame, sr) * sr as real == (frame * HopLength) as real;
  }

  /** First sample of the onset's window. */
  function WindowStart(frame: nat, sr: nat): (s: nat)
    requires sr > 0
    ensures s == frame * HopLength
  {
    StartSampleExact(frame, sr);
    Trunc(FrameTime(frame, sr) * sr as real)
  }

  /** Samples in a full window: `int(0.05 * sr)`. */
  function WindowLength(sr: nat): (k: nat)
    ensures k as real <= WindowSeconds * sr as real < k as real + 1.0
  {
    Trunc(WindowSeconds * sr as real)
  }

  /** One past the window's last sample: `min(start + int(0.05 * sr), n)`. */
  function WindowEnd(frame: nat, sr: nat, n: nat): (e: nat)
    requires sr > 0
    ensures e <= n && e <= WindowStart(frame, sr) + WindowLength(sr)
    ensures e == n || e == WindowStart(frame, sr) + WindowLength(sr)
  {
    if WindowStart(frame, sr) + WindowLength(sr) <= n then WindowStart(frame, sr) + WindowLength(sr) else n
  }

  /** An onset is kept only when its window is non-empty. */
  predicate Kept(o: Onset, sr: nat, n: nat)
    requires sr > 0
  {
    WindowEnd(o.frame, sr, n) > WindowStart(o.frame, sr)
  }

  /** An onset is kept exactly when it starts inside the audio and the window has at least one sample. */
  lemma KeptIff(o: Onset, sr: nat, n: nat)
    requires sr > 0
    ensures Kept(o, sr, n) <==> o.frame * HopLength < n && WindowLength(sr) > 0
  {
  }

  /** At 22050 Hz a window is 1102 samples. */
  lemma WindowAt22050()
    ensures WindowLength(22050) == 1102
  {
  }

  /** Number of onsets that are kept. */
  function CountKept(onsets: seq<Onset>, sr: nat, n: nat): (c: nat)
    requires sr > 0
    ensures c <= |onsets|
  {
    if |onsets| == 0 then 0
    else (if Kept(onsets[0], sr, n) then 1 else 0) + CountKept(onsets[1..], sr, n)
  }

  /** The event scored for a kept onset `o` with normalised strength `s`, from the samples of its own window. */
  function OnsetEvent(o: Onset, s: NormStrength, y: seq<real>, sr: nat, measure: seq<real> -> WindowFeatures): HapticEvent
    requires sr > 0 && Kept(o, sr, |y|)
  {
    MakeEvent(FrameTime(o.frame, sr), s, measure(y[WindowStart(o.frame, sr)..WindowEnd(o.frame, sr, |y|)]))
  }

  /** The events of the loop over `zip(onset_times, onset_strengths)`, from onset `onsets[0]` on. */
  function BuildEvents(onsets: seq<Onset>, norm: seq<NormStrength>, y: seq<real>, sr: nat, measure: seq<real> -> WindowFeatures): (events: seq<HapticEvent>)
    requires sr > 0 && |norm| == |onsets|
    ensures |events| == CountKept(onsets, sr, |y|)
  {
    if |onsets| == 0 then []
    else
      var o := onsets[0];
      var rest := BuildEvents(onsets[1..], norm[1..], y, sr, measure);
      if Kept(o, sr, |y|) then [OnsetEvent(o, norm[0], y, sr, measure)] + rest
      else rest
  }

  /** The events of a non-empty list: the first onset's event, if it is kept, then the rest. */
  function HeadEvents(o: Onset, s: NormStrength, y: seq<real>, sr: nat, measure: seq<real> -> WindowFeatures): seq<HapticEvent>
    requires sr > 0
  {
    if Kept(o, sr, |y|) then [OnsetEvent(o, s, y, sr, measure)] else []
  }

  lemma BuildEventsStep(a: seq<Onset>, na: seq<NormStrength>, y: seq<real>, sr: nat, measure: seq<real> -> WindowFeatures)
    requires sr > 0 && |na| == |a| && |a| > 0
    ensures BuildEvents(a, na, y, sr, measure) == HeadEvents(a[0], na[0], y, sr, measure) + BuildEvents(a[1..], na[1..], y, sr, measure)
  {
  }

  /** Scoring a concatenation of onsets scores each part, in order. */
  lemma {:induction false} BuildEventsConcat(a: seq<Onset>, na: seq<NormStrength>, b: seq<Onset>, nb: seq<NormStrength>,
                                             y: seq<real>, sr: nat, measure: seq<real> -> WindowFeatures)
    requires sr > 0 && |na| == |a| && |nb| == |b|
    ensures BuildEvents(a + b, na + nb, y, sr, measure) == BuildEvents(a, na, y, sr, measure) + BuildEvents(b, nb, y, sr, measure)
    decreases |a|
  {
    if |a| == 0 {
      assert a + b == b && na + nb == nb;
    } else {
      var ab, nab := a + b, na + nb;
      assert ab[0] == a[0] && ab[1..] == a[1..] + b;
      assert nab[0] == na[0] && nab[1..] == na[1..] + nb;
      BuildEventsConcat(a[1..], na[1..], b, nb, y, sr, measure);
      BuildEventsStep(ab, nab, y, sr, measure);
      BuildEventsStep(a, na, y, sr, measure);
      var h := HeadEvents(a[0], na[0], y, sr, measure);
      var x, z := BuildEvents(a[1..], na[1..], y, sr, measure), BuildEvents(b, nb, y, sr, measure);
      assert h + (x + z) == (h + x) + z;
    }
  }

  /** A single onset gives the event scored from its own strength and its own window when it is kept, and nothing otherwise. */
  lemma BuildEventsSingle(o: Onset, s: NormStrength, y: seq<real>, sr: nat, measure: seq<real> -> WindowFeatures)
    requires sr > 0
    ensures BuildEvents([o], [s], y, sr, measure) ==
              if Kept(o, sr, |y|)
              then [MakeEvent(FrameTime(o.frame, sr), s, measure(y[WindowStart(o.frame, sr)..WindowEnd(o.frame, sr, |y|)]))]
              else []
  {
    assert [o][1..] == [] && [s][1..] == [];
  }

  /** When every onset is kept, event k is the one scored from onset k's strength and window. */
  lemma {:induction false} EachKeptOnsetScored(onsets: seq<Onset>, norm: seq<NormStrength>, y: seq<real>, sr: nat, measure: seq<real> -> WindowFeatures)
    requires sr > 0 && |norm| == |onsets|
    requires forall i :: 0 <= i < |onsets| ==> Kept(onsets[i], sr, |y|)
    ensures |BuildEvents(onsets, norm, y, sr, measure)| == |onsets|
    ensures forall k :: 0 <= k < |onsets| ==> BuildEvents(onsets, norm, y, sr, measure)[k] == OnsetEvent(onsets[k], norm[k], y, sr, measure)
    decreases |onsets|
  {
    if |onsets| > 0 {
      var tl, ntl := onsets[1..], norm[1..];
      assert forall i :: 0 <= i < |tl| ==> tl[i] == onsets[i + 1];
      EachKeptOnsetScored(tl, ntl, y, sr, measure);
      var ev := BuildEvents(onsets, norm, y, sr, measure);
      var rest := BuildEvents(tl, ntl, y, sr, measure);
      assert ev[1..] == rest;
      assert Kept(onsets[0], sr, |y|);
      assert ev[0] == OnsetEvent(onsets[0], norm[0], y, sr, measure);
      forall k | 1 <= k < |onsets|
        ensures ev[k] == OnsetEvent(onsets[k], norm[k], y, sr, measure)
      {
        assert ev[k] == rest[k - 1] && tl[k - 1] == onsets[k] && ntl[k - 1] == norm[k];
      }
    }
  }

  /** The onsets detected with the settings derived from `sensitivity` and `minGapMs`. */
  function Detected(sensitivity: real, minGapMs: int, sr: nat, detect: (real, int) -> seq<Onset>): seq<Onset>
  {
    detect(Threshold(sensitivity), Wait(minGapMs, sr))
  }

  /** The precise analysis of a file of samples `y` at rate `sr`. */
  function DetectPrecise(file: string, y: seq<real>, sr: nat, sensitivity: real, minGapMs: int,
                         detect: (real, int) -> seq<Onset>, measure: seq<real> -> WindowFeatures): (res: PreciseResult)
    requires sr > 0
    ensures res.events == BuildEvents(Detected(sensitivity, minGapMs, sr, detect), Normalize(Strengths(Detected(sensitivity, minGapMs, sr, detect))), y, sr, measure)
    ensures res.totalEvents == |res.events| == CountKept(Detected(sensitivity, minGapMs, sr, detect), sr, |y|)
    ensures res.totalEvents <= |Detected(sensitivity, minGapMs, sr, detect)|
    ensures res.durationSec == |y| as real / sr as real && res.sensitivity == sensitivity
  {
    var onsets := Detected(sensitivity, minGapMs, sr, detect);
    var events := BuildEvents(onsets, Normalize(Strengths(onsets)), y, sr, measure);
    PreciseResult(file, |y| as real / sr as real, |events|, sensitivity, events)
  }

  // ---- Properties of the event list ----

  /** Onset frames in the order the detector reports them. */
  ghost predicate FramesNonDecreasing(onsets: seq<Onset>)
  {
    forall i, j :: 0 <= i < j < |onsets| ==> onsets[i].frame <= onsets[j].frame
  }

  ghost predicate TimesNonDecreasing(events: seq<HapticEvent>)
  {
    forall i, j :: 0 <= i < j < |events| ==> events[i].timeSec <= events[j].timeSec
  }

  lemma FrameTimeMonotone(f1: nat, f2: nat, sr: nat)
    requires sr > 0 && f1 <= f2
    ensures FrameTime(f1, sr) <= FrameTime(f2, sr)
  {
    assert f1 * HopLength <= f2 * HopLength;
  }

  /** Every event's time is the time of one of the onsets. */
  ghost predicate TimesFromOnsets(events: seq<HapticEvent>, onsets: seq<Onset>, sr: nat)
    requires sr > 0
  {
    forall k :: 0 <= k < |events| ==> exists i :: 0 <= i < |onsets| && events[k].timeSec == FrameTime(onsets[i].frame, sr)
  }

  /** No event is earlier than time `t`. */
  ghost predicate NotBefore(events: seq<HapticEvent>, t: real)
  {
    forall k :: 0 <= k < |events| ==> t <= events[k].timeSec
  }

  /** Every event's time is the time of one of the onsets. */
  lemma {:induction false} EventsFromOnsets(onsets: seq<Onset>, norm: seq<NormStrength>, y: seq<real>, sr: nat, measure: seq<real> -> WindowFeatures)
    requires sr > 0 && |norm| == |onsets|
    ensures TimesFromOnsets(BuildEvents(onsets, norm, y, sr, measure), onsets, sr)
    decreases |onsets|
  {
    if |onsets| > 0 {
      var tl := onsets[1..];
      EventsFromOnsets(tl, norm[1..], y, sr, measure);
      var rest := BuildEvents(tl, norm[1..], y, sr, measure);
      var ev := BuildEvents(onsets, norm, y, sr, measure);
      forall k | 0 <= k < |rest|
        ensures exists i :: 0 <= i < |onsets| && rest[k].timeSec == FrameTime(onsets[i].frame, sr)
      {
        var i :| 0 <= i < |tl| && rest[k].timeSec == FrameTime(tl[i].frame, sr);
        assert tl[i] == onsets[i + 1];
      }
      if Kept(onsets[0], sr, |y|) {
        assert ev[1..] == rest;
        assert ev[0].timeSec == FrameTime(onsets[0].frame, sr);
        forall k | 0 <= k < |ev|
          ensures exists i :: 0 <= i < |onsets| && ev[k].timeSec == FrameTime(onsets[i].frame, sr)
        {
          if k > 0 {
            assert ev[k] == rest[k - 1];
          }
        }
      } else {
        assert ev == rest;
      }
    }
  }

  /** Onsets in frame order give events in time order, none earlier than the first onset. */
  lemma {:induction false} EventsInOnsetOrder(onsets: seq<Onset>, norm: seq<NormStrength>, y: seq<real>, sr: nat, measure: seq<real> -> WindowFeatures)
    requires sr > 0 && |norm| == |onsets|
    requires FramesNonDecreasing(onsets)
    ensures TimesNonDecreasing(BuildEvents(onsets, norm, y, sr, measure))
    ensures |onsets| > 0 ==> NotBefore(BuildEvents(onsets, norm, y, sr, measure), FrameTime(onsets[0].frame, sr))
    decreases |onsets|
  {
    if |onsets| > 0 {
      var o := onsets[0];
      var tl := onsets[1..];
      assert FramesNonDecreasing(tl) by {
        forall i, j | 0 <= i < j < |tl|
          ensures tl[i].frame <= tl[j].frame
        {
          assert tl[i] == onsets[i + 1] && tl[j] == onsets[j + 1];
        }
      }
      EventsInOnsetOrder(tl, norm[1..], y, sr, measure);
      var rest := BuildEvents(tl, norm[1..], y, sr, measure);
      var ev := BuildEvents(onsets, norm, y, sr, measure);
      if |tl| > 0 {
        FrameTimeMonotone(o.frame, tl[0].frame, sr);
      }
      assert NotBefore(rest, FrameTime(o.frame, sr));
      if Kept(o, sr, |y|) {
        assert ev[1..] == rest;
        assert ev[0].timeSec == FrameTime(o.frame, sr);
        forall i, j | 0 <= i < j < |ev|
          ensures ev[i].timeSec <= ev[j].timeSec
        {
          assert ev[j] == rest[j - 1];
          if i > 0 {
            assert ev[i] == rest[i - 1];
          }
        }
      } else {
        assert ev == rest;
      }
    }
  }

  /** When the detector finds nothing, there are no events. */
  lemma NoOnsetsNoEvents(file: string, y: seq<real>, sr: nat, sensitivity: real, minGapMs: int,
                         detect: (real, int) -> seq<Onset>, measure: seq<real> -> WindowFeatures)
    requires sr > 0
    requires Detected(sensitivity, minGapMs, sr, detect) == []
    ensures DetectPrecise(file, y, sr, sensitivity, minGapMs, detect, measure).events == []
  {
  }

  /**
   With every normalised strength NaN or in [0, 1], every event has an
   intensity in [0, 1], a percentage in [0, 100] and a duration between 20 and
   50 ms.
   */
  lemma {:induction false} EventRanges(onsets: seq<Onset>, norm: seq<NormStrength>, y: seq<real>, sr: nat, measure: seq<real> -> WindowFeatures)
    requires sr > 0 && |norm| == |onsets|
    requires forall i :: 0 <= i < |norm| ==> norm[i].InUnit()
    ensures forall e :: e in BuildEvents(onsets, norm, y, sr, measure) ==>
              0.0 <= e.intensity <= 1.0 && 0 <= e.intensityPercent <= 100 && 20 <= e.durationMs <= 50
    decreases |onsets|
  {
    if |onsets| > 0 {
      EventRanges(onsets[1..], norm[1..], y, sr, measure);
    }
  }

  /** With every normalised strength NaN, every event is scored at full intensity. */
  lemma {:induction false} NaNEventsAtFull(onsets: seq<Onset>, norm: seq<NormStrength>, y: seq<real>, sr: nat, measure: seq<real> -> WindowFeatures)
    requires sr > 0 && |norm| == |onsets|
    requires forall i :: 0 <= i < |norm| ==> norm[i] == NotANumber
    ensures forall e :: e in BuildEvents(onsets, norm, y, sr, measure) ==>
              e.intensity == 1.0 && e.intensityPercent == 100 && e.durationMs == 50
    decreases |onsets|
  {
    if |onsets| > 0 {
      NaNEventsAtFull(onsets[1..], norm[1..], y, sr, measure);
    }
  }

  /**
   When every detected onset has strength zero, the normalisation divides 0 by
   0 and every event is scored at intensity 1.0, 100 percent and 50 ms.
   */
  lemma SilentEnvelopeGivesFullEvents(file: string, y: seq<real>, sr: nat, sensitivity: real, minGapMs: int,
                                      detect: (real, int) -> seq<Onset>, measure: seq<real> -> WindowFeatures)
    requires sr > 0
    requires forall o :: o in Detected(sensitivity, minGapMs, sr, detect) ==> o.strength == 0.0
    ensures forall e :: e in DetectPrecise(file, y, sr, sensitivity, minGapMs, detect, measure).events ==>
              e.intensity == 1.0 && e.intensityPercent == 100 && e.durationMs == 50
  {
    var onsets := Detected(sensitivity, minGapMs, sr, detect);
    var s := Strengths(onsets);
    assert AllZero(s) by {
      forall j | 0 <= j < |s|
        ensures s[j] == 0.0
      {
        assert onsets[j] in onsets;
      }
    }
    NaNEventsAtFull(onsets, Normalize(s), y, sr, measure);
  }

  /**
   The whole precise analysis: at most one event per onset, each with its
   intensity, percentage and duration in range, each at the time of one of the
   onsets, and in time order when the onsets are in frame order.
   */
  lemma PreciseEventsWellFormed(file: string, y: seq<real>, sr: nat, sensitivity: real, minGapMs: int,
                                detect: (real, int) -> seq<Onset>, measure: seq<real> -> WindowFeatures)
    requires sr > 0
    ensures var res := DetectPrecise(file, y, sr, sensitivity, minGapMs, detect, measure);
            (forall e :: e in res.events ==>
               0.0 <= e.intensity <= 1.0 && 0 <= e.intensityPercent <= 100 && 20 <= e.durationMs <= 50) &&
            TimesFromOnsets(res.events, Detected(sensitivity, minGapMs, sr, detect), sr) &&
            (FramesNonDecreasing(Detected(sensitivity, minGapMs, sr, detect)) ==> TimesNonDecreasing(res.events))
  {
    var onsets := Detected(sensitivity, minGapMs, sr, detect);
    var norm := Normalize(Strengths(onsets));
    NormalizeRange(Strengths(onsets));
    EventRanges(onsets, norm, y, sr, measure);
    EventsFromOnsets(onsets, norm, y, sr, measure);
    if FramesNonDecreasing(onsets) {
      EventsInOnsetOrder(onsets, norm, y, sr, measure);
    }
  }

  /**
   A single onset inside the audio whose window is bright (mean centroid above
   2500 Hz) gives exactly one event, of type "sharp", at the onset's time and
   with intensity at least 0.6, whether its strength is positive (normalised
   to 1) or zero (normalised to NaN).
   */
  lemma SingleBrightOnset(file: string, y: seq<real>, sr: nat, sensitivity: real, minGapMs: int,
                          detect: (real, int) -> seq<Onset>, measure: seq<real> -> WindowFeatures, o: Onset)
    requires sr >= 20
    requires Detected(sensitivity, minGapMs, sr, detect) == [o]
    requires o.frame * HopLength < |y|
    requires forall s :: 2500.0 < measure(s).centroid
    ensures var res := DetectPrecise(file, y, sr, sensitivity, minGapMs, detect, measure);
            res.totalEvents == 1 && res.events[0].kind == Sharp &&
            res.events[0].timeSec == FrameTime(o.frame, sr) && res.events[0].intensity >= 0.6
  {
    var onsets := [o];
    var st := Strengths(onsets);
    assert st == [o.strength];
    assert SeqMax(st) == o.strength;
    var norm := Normalize(st);
    if o.strength == 0.0 {
      assert norm[0] == NotANumber;
    } else {
      assert norm[0] == Finite(1.0) by {
        assert norm[0] == Finite(o.strength / o.strength);
        DivSelf(o.strength);
      }
    }
    assert WindowLength(sr) > 0;
    KeptIff(o, sr, |y|);
    var segment := y[WindowStart(o.frame, sr)..WindowEnd(o.frame, sr, |y|)];
    var f := measure(segment);
    var e := MakeEvent(FrameTime(o.frame, sr), norm[0], f);
    assert BuildEvents(onsets, norm, y, sr, measure) == [e] + BuildEvents([], norm[1..], y, sr, measure) by {
      assert onsets[1..] == [];
    }
    assert Brightness(f.centroid) > SharpAbove;
  }
}
