/**
 Full-timeline mode of the haptic synchroniser: the audio is cut into
 one-second sample ranges, and every range (silent ones included) becomes a
 slot whose integer intensity is turned into a strength, a vibrate flag and
 an action label by fixed thresholds.

 The audio library's measurements of a segment (the peak of its RMS curve
 and the number of onsets found in it) are a black box `extract`.
 */
module FullTimeline {
  import opened PyOps

  /** Energy is scaled by this factor before truncation to an intensity. */
  const EnergyScale: real := 500.0
  const MaxIntensity: int := 100
  /** Lower bounds of the strength bands. */
  const StrongFrom: int := 50
  const MediumFrom: int := 20
  const LightFrom: int := 5
  /** A second is a slice when it has more than this many onsets... */
  const SliceImpacts: nat := 2
  /** ...and an intensity above this. */
  const SliceAbove: int := 15

  /** What the audio library measures for one segment. */
  datatype SlotFeatures = SlotFeatures(maxEnergy: real, impacts: nat)

  datatype Strength = NoStrength | Light | Medium | Strong
  {
    /** The label written to the timeline. */
    function Name(): string
    {
      match this
      case NoStrength => "none"
      case Light => "light"
      case Medium => "medium"
      case Strong => "strong"
    }

    function Rank(): nat
    {
      match this
      case NoStrength => 0
      case Light => 1
      case Medium => 2
      case Strong => 3
    }
  }

  datatype Action = Silence | Slice | Impact | Sound
  {
    function Name(): string
    {
      match this
      case Silence => "silence"
      case Slice => "slice"
      case Impact => "impact"
      case Sound => "sound"
    }
  }

  /** One second of audio. */
  datatype Slot = Slot(second: nat, intensity: int, vibrate: bool, strength: Strength, action: Action, impacts: nat)

  /** The record returned by the full analysis. */
  datatype FullResult = FullResult(file: string, durationSec: real, totalSeconds: nat, vibrationSeconds: nat, timeline: seq<Slot>)

  /** Intensity 0-100 from the segment's peak energy: `min(100, int(max_energy * 500))`. */
  function Intensity(maxEnergy: real): (r: int)
    ensures r <= MaxIntensity
    ensures 0.0 <= maxEnergy ==> 0 <= r
    ensures 0.0 <= maxEnergy ==> (r == MaxIntensity <==> maxEnergy >= 0.2)
    ensures 0.0 <= maxEnergy && r < MaxIntensity ==> r as real <= maxEnergy * EnergyScale < r as real + 1.0
  {
    Min(MaxIntensity, Trunc(maxEnergy * EnergyScale))
  }

  /** The strength band and vibrate flag, decided together by one chain of thresholds. */
  function StrengthAndVibrate(intensity: int): (r: (Strength, bool))
    ensures r.1 <==> r.0 == Medium || r.0 == Strong
    ensures r.1 <==> intensity >= MediumFrom
    ensures r.0 == NoStrength <==> intensity < LightFrom
    ensures r.0 == Light <==> LightFrom <= intensity < MediumFrom
    ensures r.0 == Medium <==> MediumFrom <= intensity < StrongFrom
    ensures r.0 == Strong <==> intensity >= StrongFrom
  {
    if intensity >= StrongFrom then (Strong, true)
    else if intensity >= MediumFrom then (Medium, true)
    else if intensity >= LightFrom then (Light, false)
    else (NoStrength, false)
  }

  /** The action label; "slice" takes precedence over "impact". */
  function ActionOf(intensity: int, impacts: nat): (a: Action)
    ensures a == Silence <==> intensity < LightFrom
    ensures a == Slice <==> intensity >= LightFrom && impacts > SliceImpacts && intensity > SliceAbove
    ensures a == Impact <==> intensity >= StrongFrom && !(impacts > SliceImpacts && intensity > SliceAbove)
    ensures a == Sound <==> LightFrom <= intensity < StrongFrom && !(impacts > SliceImpacts && intensity > SliceAbove)
  {
    if intensity < LightFrom then Silence
    else if impacts > SliceImpacts && intensity > SliceAbove then Slice
    else if intensity >= StrongFrom then Impact
    else Sound
  }

  /** The relations every slot's labels keep with each other and with its intensity. */
  ghost predicate Consistent(s: Slot)
  {
    && s.intensity <= MaxIntensity
    && (s.vibrate <==> s.intensity >= MediumFrom)
    && (s.vibrate <==> s.strength == Medium || s.strength == Strong)
    && (s.action == Silence <==> s.strength == NoStrength)
    && (s.action == Silence <==> s.intensity < LightFrom)
    && (s.strength == Strong <==> s.intensity >= StrongFrom)
    && (s.action == Impact ==> s.strength == Strong)
    && (s.action == Slice ==> s.impacts > SliceImpacts && s.intensity > SliceAbove)
  }

  /** Builds the slot for second `sec` from the segment's measurements. */
  function MakeSlot(sec: nat, f: SlotFeatures): (s: Slot)
    ensures s.second == sec && s.impacts == f.impacts
    ensures s.intensity == Intensity(f.maxEnergy)
    ensures (s.strength, s.vibrate) == StrengthAndVibrate(s.intensity)
    ensures s.action == ActionOf(s.intensity, s.impacts)
    ensures Consistent(s)
    ensures 0.0 <= f.maxEnergy ==> 0 <= s.intensity
  {
    var intensity := Intensity(f.maxEnergy);
    var (strength, vibrate) := StrengthAndVibrate(intensity);
    Slot(sec, intensity, vibrate, strength, ActionOf(intensity, f.impacts), f.impacts)
  }

  /**
   The action and the strength band agree: silence exactly for no strength,
   an impact only for a strong second, a slice never for a silent one
   (although a slice of intensity 16-19 is light and does not vibrate).
   */
  lemma LabelsAgree(intensity: int, impacts: nat)
    ensures ActionOf(intensity, impacts) == Silence <==> StrengthAndVibrate(intensity).0 == NoStrength
    ensures ActionOf(intensity, impacts) == Impact ==> StrengthAndVibrate(intensity).0 == Strong
    ensures ActionOf(intensity, impacts) == Slice ==> StrengthAndVibrate(intensity).0 != NoStrength
    ensures ActionOf(intensity, impacts) == Sound ==> StrengthAndVibrate(intensity).0 != Strong
  {
  }

  /** A higher intensity never gives a weaker strength band. */
  lemma StrengthMonotone(a: int, b: int)
    requires a <= b
    ensures StrengthAndVibrate(a).0.Rank() <= StrengthAndVibrate(b).0.Rank()
  {
  }

  // ---- One-second sample ranges ----

  /** First sample of second `i`: the sample whose second is `i` with no remainder. */
  function SlotStart(i: nat, sr: nat): (s: nat)
    ensures sr > 0 ==> s / sr == i && s % sr == 0
  {
    if sr > 0 then DivUnique(i * sr, sr, i, 0); i * sr else i * sr
  }

  /** One past the last sample of second `i` in a file of `n` samples: the start of the next second, or the end of the file, whichever comes first. */
  function SlotEnd(i: nat, n: nat, sr: nat): (e: nat)
    ensures e <= n && e <= (i + 1) * sr
    ensures e == n || e == (i + 1) * sr
  {
    if (i + 1) * sr <= n then (i + 1) * sr else n
  }

  /** The number of slots: `ceil(n / sr)`. */
  function SlotCount(n: nat, sr: nat): nat
    requires sr > 0
  {
    (n + sr - 1) / sr
  }

  /** `SlotCount` is the least number of whole seconds that reaches past the last sample. */
  lemma SlotCountIsLeastCover(n: nat, sr: nat)
    requires sr > 0
    ensures SlotCount(n, sr) * sr >= n
    ensures SlotCount(n, sr) == 0 || (SlotCount(n, sr) - 1) * sr < n
    ensures SlotCount(n, sr) == 0 <==> n == 0
  {
    var c := SlotCount(n, sr);
    var m := n + sr - 1;
    assert m == c * sr + m % sr;
    if c > 0 {
      assert (c - 1) * sr == c * sr - sr;
    }
  }

  /** Any count that covers the file and whose last second is non-empty equals `SlotCount`. */
  lemma SlotCountUnique(n: nat, sr: nat, c: nat)
    requires sr > 0
    requires c * sr >= n
    requires c == 0 || (c - 1) * sr < n
    ensures c == SlotCount(n, sr)
  {
    SlotCountIsLeastCover(n, sr);
    var d := SlotCount(n, sr);
    if c < d {
      assert c <= d - 1;
      MulLeft(c, d - 1, sr);
    } else if d < c {
      assert d <= c - 1;
      MulLeft(d, c - 1, sr);
    }
  }

  /** The second a sample index falls in. */
  function SecondOf(k: nat, sr: nat): nat
    requires sr > 0
  {
    k / sr
  }

  /** Sample `k` lies in second `i`'s range. */
  predicate InSlot(k: nat, i: nat, n: nat, sr: nat)
  {
    SlotStart(i, sr) <= k < SlotEnd(i, n, sr)
  }

  /**
   The slots are non-empty, at most one second long, contiguous, and
   together cover exactly the samples `[0, n)`; sample `k` lies in slot `k / sr`
   and in no other.
   */
  lemma SlotsPartitionSamples(n: nat, sr: nat)
    requires sr > 0
    ensures forall i :: 0 <= i < SlotCount(n, sr) ==> SlotStart(i, sr) < SlotEnd(i, n, sr) <= SlotStart(i, sr) + sr
    ensures SlotCount(n, sr) > 0 ==> SlotStart(0, sr) == 0 && SlotEnd(SlotCount(n, sr) - 1, n, sr) == n
    ensures forall i :: 0 < i < SlotCount(n, sr) ==> SlotStart(i, sr) == SlotEnd(i - 1, n, sr)
    ensures forall k :: 0 <= k < n ==> SecondOf(k, sr) < SlotCount(n, sr) && InSlot(k, SecondOf(k, sr), n, sr)
    ensures forall k: nat, i: nat :: i < SlotCount(n, sr) && InSlot(k, i, n, sr) ==> i == SecondOf(k, sr)
  {
    var c := SlotCount(n, sr);
    SlotCountIsLeastCover(n, sr);
    forall i | 0 <= i < c
      ensures SlotStart(i, sr) < SlotEnd(i, n, sr) <= SlotStart(i, sr) + sr
    {
      SlotNonEmpty(n, sr, i);
    }
    if c > 0 {
      LastSlotEnds(n, sr);
    }
    forall i | 0 < i < c
      ensures SlotStart(i, sr) == SlotEnd(i - 1, n, sr)
    {
      SlotNonEmpty(n, sr, i);
    }
    forall k | 0 <= k < n
      ensures SecondOf(k, sr) < c && InSlot(k, SecondOf(k, sr), n, sr)
    {
      SampleInItsSlot(n, sr, k);
    }
    forall k: nat, i: nat | i < c && InSlot(k, i, n, sr)
      ensures i == SecondOf(k, sr)
    {
      SlotOfSample(n, sr, k, i);
    }
  }

  lemma SlotNonEmpty(n: nat, sr: nat, i: nat)
    requires sr > 0 && i < SlotCount(n, sr)
    ensures SlotStart(i, sr) < SlotEnd(i, n, sr) <= SlotStart(i, sr) + sr
  {
    SlotCountIsLeastCover(n, sr);
    MulLeft(i, SlotCount(n, sr) - 1, sr);
    assert (i + 1) * sr == i * sr + sr;
  }

  lemma SlotOfSample(n: nat, sr: nat, k: nat, i: nat)
    requires sr > 0 && InSlot(k, i, n, sr)
    ensures i == SecondOf(k, sr)
  {
    assert (i + 1) * sr == i * sr + sr;
    DivUnique(k, sr, i, k - i * sr);
  }

  lemma LastSlotEnds(n: nat, sr: nat)
    requires sr > 0 && SlotCount(n, sr) > 0
    ensures SlotEnd(SlotCount(n, sr) - 1, n, sr) == n
  {
    var c := SlotCount(n, sr);
    SlotCountIsLeastCover(n, sr);
    assert c * sr == (c - 1) * sr + sr;
  }

  lemma SampleInItsSlot(n: nat, sr: nat, k: nat)
    requires sr > 0 && k < n
    ensures SecondOf(k, sr) < SlotCount(n, sr) && InSlot(k, SecondOf(k, sr), n, sr)
  {
    var c := SlotCount(n, sr);
    SlotCountIsLeastCover(n, sr);
    var q := k / sr;
    assert k == q * sr + k % sr;
    assert (q + 1) * sr == q * sr + sr;
    if q >= c {
      MulLeft(c, q, sr);
    }
  }

  /**
   The loop bound `int(duration) + 1` equals the slot count exactly when the
   file is not a whole number of seconds; for a whole number the break ends
   the loop one round early.
   */
  lemma SlotCountVersusWholeSeconds(n: nat, sr: nat)
    requires sr > 0
    ensures n % sr != 0 ==> SlotCount(n, sr) == n / sr + 1
    ensures n % sr == 0 ==> SlotCount(n, sr) == n / sr
  {
    var q := n / sr;
    var r := n % sr;
    assert n == q * sr + r;
    if r != 0 {
      DivUnique(n + sr - 1, sr, q + 1, r - 1);
    } else {
      DivUnique(n + sr - 1, sr, q, sr - 1);
    }
  }

  /** The slot the analysis builds for second `i`. */
  function SlotAt(y: seq<real>, sr: nat, extract: seq<real> -> SlotFeatures, i: nat): (s: Slot)
    requires sr > 0 && SlotStart(i, sr) < |y|
    ensures SlotStart(i, sr) < SlotEnd(i, |y|, sr)
    ensures s.second == i && Consistent(s)
    ensures var f := extract(y[SlotStart(i, sr)..SlotEnd(i, |y|, sr)]);
            s.intensity == Intensity(f.maxEnergy) && s.impacts == f.impacts
  {
    MakeSlot(i, extract(y[SlotStart(i, sr)..SlotEnd(i, |y|, sr)]))
  }

  /** Number of slots with the vibrate flag set. */
  function CountVibrating(t: seq<Slot>): (c: nat)
    ensures c <= |t|
    ensures c == |Vibrating(t)|
  {
    if |t| == 0 then 0
    else (if t[|t| - 1].vibrate then 1 else 0) + CountVibrating(t[..|t| - 1])
  }

  /** The slots with the vibrate flag set, in timeline order. */
  function Vibrating(t: seq<Slot>): (v: seq<Slot>)
    ensures forall s :: s in v ==> s in t && s.vibrate
    ensures forall s :: s in t && s.vibrate ==> s in v
    ensures |v| <= |t|
  {
    if |t| == 0 then []
    else Vibrating(t[..|t| - 1]) + (if t[|t| - 1].vibrate then [t[|t| - 1]] else [])
  }

  /**
   The loop over seconds stops either after `n / sr + 1` seconds or at the
   first second starting at or past the end; either way it has visited
   exactly `SlotCount(n, sr)` seconds.
   */
  lemma LoopExitIsSlotCount(n: nat, sr: nat, sec: nat)
    requires sr > 0
    requires sec == n / sr + 1 || SlotStart(sec, sr) >= n
    requires sec == 0 || SlotStart(sec - 1, sr) < n
    ensures sec == SlotCount(n, sr)
  {
    if sec == n / sr + 1 {
      assert n == (n / sr) * sr + n % sr;
      assert sec * sr == (n / sr) * sr + sr;
    }
    SlotCountUnique(n, sr, sec);
  }

  /**
   The full analysis: one slot per second, including the partial final second
   and every silent second, and the two counts of the summary.
   */
  method AnalyzeFull(file: string, y: seq<real>, sr: nat, extract: seq<real> -> SlotFeatures) returns (res: FullResult)
    requires sr > 0
    ensures |res.timeline| == SlotCount(|y|, sr)
    ensures forall i :: 0 <= i < |res.timeline| ==> SlotStart(i, sr) < |y| && res.timeline[i] == SlotAt(y, sr, extract, i)
    ensures forall i :: 0 <= i < |res.timeline| ==> res.timeline[i].second == i && Consistent(res.timeline[i])
    ensures res.totalSeconds == |res.timeline|
    ensures res.vibrationSeconds == CountVibrating(res.timeline) <= res.totalSeconds
    ensures res.durationSec == |y| as real / sr as real
  {
    var n := |y|;
    var duration := n as real / sr as real;
    var last := Trunc(duration) + 1;
    TruncOfQuotient(n, sr);
    var timeline: seq<Slot> := [];
    var sec := 0;
    while sec < last
      invariant 0 <= sec <= last
      invariant |timeline| == sec
      invariant forall i :: 0 <= i < sec ==> SlotStart(i, sr) < n && timeline[i] == SlotAt(y, sr, extract, i)
    {
      var start := SlotStart(sec, sr);
      if start >= n {
        break;
      }
      var segment := y[start..SlotEnd(sec, n, sr)];
      timeline := timeline + [MakeSlot(sec, extract(segment))];
      sec := sec + 1;
    }
    assert sec > 0 ==> SlotStart(sec - 1, sr) < n;
    LoopExitIsSlotCount(n, sr, sec);
    res := FullResult(file, duration, |timeline|, CountVibrating(timeline), timeline);
  }

  /** A silent file of three whole seconds gives three silent, non-vibrating slots of intensity 0. */
  lemma SilentThreeSeconds(y: seq<real>, sr: nat, extract: seq<real> -> SlotFeatures)
    requires sr > 0 && |y| == 3 * sr
    requires forall s :: extract(s).maxEnergy == 0.0
    ensures SlotCount(|y|, sr) == 3
    ensures forall i :: 0 <= i < 3 ==>
              SlotStart(i, sr) < |y| &&
              var s := SlotAt(y, sr, extract, i);
              s.intensity == 0 && s.action == Silence && !s.vibrate && s.strength == NoStrength
  {
    DivUnique(3 * sr + sr - 1, sr, 3, sr - 1);
    forall i | 0 <= i < 3
      ensures SlotStart(i, sr) < |y|
    {
      MulLeft(i, 2, sr);
    }
  }
}
