/**
 The Android exporter of the full timeline: the vibrating seconds become two
 parallel arrays for `VibrationEffect.createWaveform(timings, amplitudes, -1)`,
 written wait-then-vibrate: an optional silent gap (amplitude 0) followed by a
 200 ms pulse whose amplitude is the slot's intensity scaled to 0-255.

 `AndroidWaveform` measures each gap from the end of the previous slot's
 whole second, as if every pulse filled its second, so on a device every
 pulse after the first starts early (`AsWrittenPulseDrift`).
 `AlignedWaveform` measures each gap from the end of the previous 200 ms
 pulse, and starts every pulse on its own second.
 */
module AndroidExport {
  import opened PyOps
  import opened FullTimeline

  const PulseMs: int := 200
  const SecondMs: int := 1000
  const MaxAmplitude: int := 255

  datatype Waveform = Waveform(timings: seq<int>, amplitudes: seq<int>)

  /** One decoded pulse: the second it belongs to and its amplitude. */
  datatype Pulse = Pulse(second: int, amplitude: int)

  /** Intensity 0-100 scaled to an amplitude: `min(255, intensity * 255 // 100)`. */
  function Amplitude(intensity: int): (a: int)
    ensures a <= MaxAmplitude
    ensures 0 <= intensity ==> 0 <= a
    ensures 1 <= intensity ==> 1 <= a
    ensures 0 <= intensity <= 100 ==> a * 100 <= intensity * 255 < a * 100 + 100
  {
    // Python's `//` floors; with the positive divisor 100 that is Dafny's `/`.
    Min(MaxAmplitude, intensity * 255 / 100)
  }

  /** The seconds increase strictly along the sequence. */
  ghost predicate StrictlyIncreasing(t: seq<Slot>)
  {
    forall i, j :: 0 <= i < j < |t| ==> t[i].second < t[j].second
  }

  /** Every vibrating slot has a positive intensity, so its pulse has a non-zero amplitude. */
  ghost predicate AudiblePulses(t: seq<Slot>)
  {
    forall s :: s in t && s.vibrate ==> 1 <= s.intensity
  }

  /** The entries for one slot: a silent gap when `gap` is positive, then the pulse. */
  function Entries(gap: int, amp: int): (w: Waveform)
    ensures |w.timings| == |w.amplitudes| && 1 <= |w.timings| <= 2
    ensures w.timings[|w.timings| - 1] == PulseMs && w.amplitudes[|w.amplitudes| - 1] == amp
    ensures |w.timings| == 2 <==> gap > 0
    ensures |w.timings| == 2 ==> w.timings[0] == gap && w.amplitudes[0] == 0
  {
    if gap > 0 then Waveform([gap, PulseMs], [0, amp]) else Waveform([PulseMs], [amp])
  }

  function Concat(a: Waveform, b: Waveform): Waveform
  {
    Waveform(a.timings + b.timings, a.amplitudes + b.amplitudes)
  }

  /** The entries the exporter writes for slot `t` when the previous pulse is taken to end at second `last`. */
  function SlotEntries(t: Slot, last: int): (w: Waveform)
    ensures |w.timings| == |w.amplitudes| && 1 <= |w.timings| <= 2
    ensures w.timings[|w.timings| - 1] == PulseMs && w.amplitudes[|w.amplitudes| - 1] == Amplitude(t.intensity)
    ensures |w.timings| == 2 <==> t.second > last
    ensures |w.timings| == 2 ==> w.timings[0] == (t.second - last) * SecondMs && w.amplitudes[0] == 0
  {
    Entries((t.second - last) * SecondMs, Amplitude(t.intensity))
  }

  /** The gap-and-pulse entries for `vs`, where `last` is the second the previous pulse is taken to end at. */
  function EncodeFrom(vs: seq<Slot>, last: int): (w: Waveform)
    ensures |w.timings| == |w.amplitudes|
    ensures |vs| <= |w.timings| <= 2 * |vs|
  {
    if |vs| == 0 then Waveform([], [])
    else
      var t := vs[0];
      Concat(SlotEntries(t, last), EncodeFrom(vs[1..], t.second + 1))
  }

  /** Every entry of the encoding lasts a positive time, every amplitude is at most 255, and every non-silent entry is a 200 ms pulse. */
  lemma {:induction false} EncodedEntries(vs: seq<Slot>, last: int)
    ensures forall i :: 0 <= i < |EncodeFrom(vs, last).timings| ==>
              EncodeFrom(vs, last).timings[i] > 0 && EncodeFrom(vs, last).amplitudes[i] <= MaxAmplitude &&
              (EncodeFrom(vs, last).amplitudes[i] != 0 ==> EncodeFrom(vs, last).timings[i] == PulseMs)
    decreases |vs|
  {
    if |vs| > 0 {
      var t := vs[0];
      EncodedEntries(vs[1..], t.second + 1);
      var head := SlotEntries(t, last);
      var rest := EncodeFrom(vs[1..], t.second + 1);
      var enc := Concat(head, rest);
      assert enc == EncodeFrom(vs, last);
      forall i | 0 <= i < |enc.timings|
        ensures enc.timings[i] > 0 && enc.amplitudes[i] <= MaxAmplitude && (enc.amplitudes[i] != 0 ==> enc.timings[i] == PulseMs)
      {
        if i >= |head.timings| {
          var k := i - |head.timings|;
          assert enc.timings[i] == rest.timings[k];
          assert enc.amplitudes[i] == rest.amplitudes[k];
        } else {
          assert enc.timings[i] == head.timings[i] && enc.amplitudes[i] == head.amplitudes[i];
        }
      }
    }
  }

  /** Non-negative intensities give non-negative amplitudes. */
  lemma {:induction false} EncodedAmplitudesNonNegative(vs: seq<Slot>, last: int)
    requires forall s :: s in vs ==> 0 <= s.intensity
    ensures forall i :: 0 <= i < |EncodeFrom(vs, last).amplitudes| ==> 0 <= EncodeFrom(vs, last).amplitudes[i]
    decreases |vs|
  {
    if |vs| > 0 {
      var t := vs[0];
      assert forall s :: s in vs[1..] ==> s in vs;
      EncodedAmplitudesNonNegative(vs[1..], t.second + 1);
      var head := SlotEntries(t, last);
      var rest := EncodeFrom(vs[1..], t.second + 1);
      var enc := Concat(head, rest);
      assert enc == EncodeFrom(vs, last);
      assert 0 <= t.intensity by {
        assert t in vs;
      }
      forall i | 0 <= i < |enc.amplitudes|
        ensures 0 <= enc.amplitudes[i]
      {
        if i >= |head.timings| {
          assert enc.amplitudes[i] == rest.amplitudes[i - |head.timings|];
        } else {
          assert enc.amplitudes[i] == head.amplitudes[i];
        }
      }
    }
  }

  /** The exporter as written: the vibrating slots, encoded from second 0. */
  function AndroidWaveform(timeline: seq<Slot>): (w: Waveform)
    ensures |w.timings| == |w.amplitudes|
    ensures forall i :: 0 <= i < |w.timings| ==> w.timings[i] > 0
    ensures forall i :: 0 <= i < |w.amplitudes| ==> w.amplitudes[i] <= MaxAmplitude
  {
    EncodedEntries(Vibrating(timeline), 0);
    EncodeFrom(Vibrating(timeline), 0)
  }

  // ---- Reading a waveform back ----

  /**
   Reads the waveform back as the exporter meant it: a silent entry advances
   the current second by its length in seconds, a non-silent entry is the
   pulse of the current second, which then ends.
   */
  function Decode(timings: seq<int>, amplitudes: seq<int>, last: int): (r: seq<Pulse>)
    requires |timings| == |amplitudes|
    ensures |r| <= |timings|
  {
    if |timings| == 0 then []
    else if amplitudes[0] == 0 then Decode(timings[1..], amplitudes[1..], last + timings[0] / SecondMs)
    else [Pulse(last, amplitudes[0])] + Decode(timings[1..], amplitudes[1..], last + 1)
  }

  /**
   Every decoded pulse carries one of the waveform's non-zero amplitudes; with
   non-negative durations, the pulses fall on seconds from `last` on, strictly
   increasing.
   */
  lemma {:induction false} DecodedPulses(timings: seq<int>, amplitudes: seq<int>, last: int)
    requires |timings| == |amplitudes|
    requires forall k :: 0 <= k < |timings| ==> 0 <= timings[k]
    ensures forall k :: 0 <= k < |Decode(timings, amplitudes, last)| ==>
              Decode(timings, amplitudes, last)[k].amplitude != 0 && Decode(timings, amplitudes, last)[k].amplitude in amplitudes
    ensures forall k :: 0 <= k < |Decode(timings, amplitudes, last)| ==> last <= Decode(timings, amplitudes, last)[k].second
    ensures forall i, j :: 0 <= i < j < |Decode(timings, amplitudes, last)| ==>
              Decode(timings, amplitudes, last)[i].second < Decode(timings, amplitudes, last)[j].second
    decreases |timings|
  {
    if |timings| > 0 {
      var next := if amplitudes[0] == 0 then last + timings[0] / SecondMs else last + 1;
      assert forall k :: 0 <= k < |timings[1..]| ==> timings[1..][k] == timings[k + 1];
      DecodedPulses(timings[1..], amplitudes[1..], next);
      var rest := Decode(timings[1..], amplitudes[1..], next);
      assert forall x :: x in amplitudes[1..] ==> x in amplitudes;
      if amplitudes[0] == 0 {
        assert Decode(timings, amplitudes, last) == rest;
      } else {
        PrependPulse(Pulse(last, amplitudes[0]), rest, next);
        assert Decode(timings, amplitudes, last) == [Pulse(last, amplitudes[0])] + rest;
      }
    }
  }

  /** A pulse before every pulse of a list in increasing seconds extends it in increasing seconds. */
  lemma PrependPulse(p: Pulse, rest: seq<Pulse>, lo: int)
    requires p.second < lo
    requires forall k :: 0 <= k < |rest| ==> lo <= rest[k].second
    requires forall i, j :: 0 <= i < j < |rest| ==> rest[i].second < rest[j].second
    ensures forall k :: 0 <= k < |[p] + rest| ==> p.second <= ([p] + rest)[k].second
    ensures forall i, j :: 0 <= i < j < |[p] + rest| ==> ([p] + rest)[i].second < ([p] + rest)[j].second
  {
    var r := [p] + rest;
    forall i, j | 0 <= i < j < |r|
      ensures r[i].second < r[j].second
    {
      assert r[j] == rest[j - 1];
      if i > 0 {
        assert r[i] == rest[i - 1];
      }
    }
  }

  /** The pulse each slot should produce. */
  function Pulses(vs: seq<Slot>): (p: seq<Pulse>)
    ensures |p| == |vs|
    ensures forall i :: 0 <= i < |vs| ==> p[i] == Pulse(vs[i].second, Amplitude(vs[i].intensity))
  {
    if |vs| == 0 then [] else [Pulse(vs[0].second, Amplitude(vs[0].intensity))] + Pulses(vs[1..])
  }

  /** The tail of a strictly increasing, audible sequence is one too, and starts after its head. */
  lemma TailOfIncreasing(vs: seq<Slot>)
    requires |vs| > 0
    requires StrictlyIncreasing(vs)
    requires forall s :: s in vs ==> 1 <= s.intensity
    ensures StrictlyIncreasing(vs[1..])
    ensures forall s :: s in vs[1..] ==> 1 <= s.intensity
    ensures |vs| > 1 ==> vs[0].second + 1 <= vs[1..][0].second
  {
    assert forall s :: s in vs[1..] ==> s in vs;
    forall i, j | 0 <= i < j < |vs[1..]|
      ensures vs[1..][i].second < vs[1..][j].second
    {
      assert vs[1..][i] == vs[i + 1] && vs[1..][j] == vs[j + 1];
    }
  }

  /** Decoding one slot's entries followed by more entries. */
  lemma DecodeEntries(k: nat, amp: int, rest: Waveform, last: int)
    requires amp != 0 && |rest.timings| == |rest.amplitudes|
    ensures var w := Concat(Entries(k * SecondMs, amp), rest);
            Decode(w.timings, w.amplitudes, last) == [Pulse(last + k, amp)] + Decode(rest.timings, rest.amplitudes, last + k + 1)
  {
    var w := Concat(Entries(k * SecondMs, amp), rest);
    var tail := Decode(rest.timings, rest.amplitudes, last + k + 1);
    if k > 0 {
      assert (k * SecondMs) / SecondMs == k by {
        DivUnique(k * SecondMs, SecondMs, k, 0);
      }
      var ts, amps := [PulseMs] + rest.timings, [amp] + rest.amplitudes;
      assert w.timings == [k * SecondMs] + ts && w.amplitudes == [0] + amps;
      assert ts[1..] == rest.timings && amps[1..] == rest.amplitudes;
      assert Decode(ts, amps, last + k) == [Pulse(last + k, amp)] + tail;
      assert w.timings[1..] == ts && w.amplitudes[1..] == amps;
    } else {
      assert w.timings[1..] == rest.timings;
      assert w.amplitudes[1..] == rest.amplitudes;
    }
  }

  /** Every silent entry of the waveform lasts a positive whole number of seconds. */
  ghost predicate SilencesAreWholeSeconds(w: Waveform)
    requires |w.timings| == |w.amplitudes|
  {
    forall i :: 0 <= i < |w.amplitudes| && w.amplitudes[i] == 0 ==> w.timings[i] > 0 && w.timings[i] % SecondMs == 0
  }

  lemma ConcatKeepsWholeSeconds(a: Waveform, b: Waveform)
    requires |a.timings| == |a.amplitudes| && |b.timings| == |b.amplitudes|
    requires SilencesAreWholeSeconds(a) && SilencesAreWholeSeconds(b)
    ensures SilencesAreWholeSeconds(Concat(a, b))
  {
    var w := Concat(a, b);
    forall i | 0 <= i < |w.amplitudes| && w.amplitudes[i] == 0
      ensures w.timings[i] > 0 && w.timings[i] % SecondMs == 0
    {
      if i >= |a.timings| {
        assert w.amplitudes[i] == b.amplitudes[i - |a.timings|];
        assert w.timings[i] == b.timings[i - |a.timings|];
      } else {
        assert w.amplitudes[i] == a.amplitudes[i] && w.timings[i] == a.timings[i];
      }
    }
  }

  /** A slot's own entries: the only silent one is the gap of whole seconds before it. */
  lemma SlotEntriesWholeSeconds(t: Slot, last: int)
    requires 1 <= t.intensity
    ensures SilencesAreWholeSeconds(SlotEntries(t, last))
  {
    var k := t.second - last;
    assert (k * SecondMs) % SecondMs == 0 by {
      DivUnique(k * SecondMs, SecondMs, k, 0);
    }
    assert 1 <= Amplitude(t.intensity);
  }

  /** Every silent entry is a gap of a positive whole number of seconds. */
  lemma {:induction false} GapsAreWholeSeconds(vs: seq<Slot>, last: int)
    requires forall s :: s in vs ==> 1 <= s.intensity
    ensures SilencesAreWholeSeconds(EncodeFrom(vs, last))
    decreases |vs|
  {
    if |vs| > 0 {
      var t := vs[0];
      assert forall s :: s in vs[1..] ==> s in vs;
      GapsAreWholeSeconds(vs[1..], t.second + 1);
      assert t in vs;
      SlotEntriesWholeSeconds(t, last);
      var head := SlotEntries(t, last);
      var rest := EncodeFrom(vs[1..], t.second + 1);
      ConcatKeepsWholeSeconds(head, rest);
      assert Concat(head, rest) == EncodeFrom(vs, last);
    }
  }

  /** Decoding one slot's entries, for a slot not earlier than `last`, followed by more entries. */
  lemma DecodeSlotEntries(t: Slot, last: int, rest: Waveform)
    requires last <= t.second && Amplitude(t.intensity) != 0 && |rest.timings| == |rest.amplitudes|
    ensures var w := Concat(SlotEntries(t, last), rest);
            Decode(w.timings, w.amplitudes, last) ==
              [Pulse(t.second, Amplitude(t.intensity))] + Decode(rest.timings, rest.amplitudes, t.second + 1)
  {
    DecodeEntries(t.second - last, Amplitude(t.intensity), rest, last);
  }

  /** Decoding the encoding of strictly increasing, audible slots gives back each slot's pulse, in order. */
  lemma {:induction false} DecodeEncode(vs: seq<Slot>, last: int)
    requires StrictlyIncreasing(vs)
    requires forall s :: s in vs ==> 1 <= s.intensity
    requires |vs| > 0 ==> last <= vs[0].second
    ensures var w := EncodeFrom(vs, last);
            Decode(w.timings, w.amplitudes, last) == Pulses(vs)
    decreases |vs|
  {
    if |vs| > 0 {
      var t := vs[0];
      TailOfIncreasing(vs);
      DecodeEncode(vs[1..], t.second + 1);
      assert Amplitude(t.intensity) != 0 by {
        assert t in vs;
      }
      var rest := EncodeFrom(vs[1..], t.second + 1);
      DecodeSlotEntries(t, last, rest);
      assert EncodeFrom(vs, last) == Concat(SlotEntries(t, last), rest);
      assert Pulses(vs) == [Pulse(t.second, Amplitude(t.intensity))] + Pulses(vs[1..]);
    }
  }

  lemma {:induction false} VibratingKeepsOrder(t: seq<Slot>)
    requires StrictlyIncreasing(t)
    ensures StrictlyIncreasing(Vibrating(t))
    decreases |t|
  {
    if |t| > 0 {
      var p := t[..|t| - 1];
      assert StrictlyIncreasing(p);
      VibratingKeepsOrder(p);
      var v := Vibrating(t);
      forall i, j | 0 <= i < j < |v|
        ensures v[i].second < v[j].second
      {
        var vp := Vibrating(p);
        if j >= |vp| {
          assert v[i] in vp;
          var k :| 0 <= k < |p| && p[k] == v[i];
          assert v[j] == t[|t| - 1];
        }
      }
    }
  }

  /**
   Round trip of the exporter: from a timeline with strictly increasing seconds
   whose vibrating slots are audible, the waveform holds exactly one pulse per
   vibrating slot, in timeline order, at that slot's second and with its scaled
   intensity; every pulse entry lasts 200 ms and every silent entry is a whole
   number of seconds.
   */
  lemma AndroidRoundTrip(timeline: seq<Slot>)
    requires StrictlyIncreasing(timeline)
    requires AudiblePulses(timeline)
    ensures var w := AndroidWaveform(timeline);
            Decode(w.timings, w.amplitudes, 0) == Pulses(Vibrating(timeline))
    ensures var w := AndroidWaveform(timeline);
            forall i :: 0 <= i < |w.amplitudes| ==>
              0 <= w.amplitudes[i] <= MaxAmplitude &&
              (w.amplitudes[i] == 0 ==> w.timings[i] > 0 && w.timings[i] % SecondMs == 0) &&
              (w.amplitudes[i] != 0 ==> w.timings[i] == PulseMs)
  {
    var vs := Vibrating(timeline);
    VibratingKeepsOrder(timeline);
    assert forall s :: s in vs ==> 1 <= s.intensity;
    DecodeEncode(vs, 0);
    EncodedEntries(vs, 0);
    EncodedAmplitudesNonNegative(vs, 0);
    GapsAreWholeSeconds(vs, 0);
  }

  /** The full analysis produces timelines the exporter round-trips. */
  lemma AnalyzedTimelinesExport(timeline: seq<Slot>)
    requires forall i :: 0 <= i < |timeline| ==> timeline[i].second == i && Consistent(timeline[i])
    ensures StrictlyIncreasing(timeline) && AudiblePulses(timeline)
    ensures |Pulses(Vibrating(timeline))| == CountVibrating(timeline)
  {
    forall s | s in timeline && s.vibrate
      ensures 1 <= s.intensity
    {
      var i :| 0 <= i < |timeline| && timeline[i] == s;
    }
  }

  // ---- Where the pulses fall on the device ----

  /** Start time in milliseconds of every non-silent entry when playback of the waveform starts at `clock`. */
  function PulseOnsets(timings: seq<int>, amplitudes: seq<int>, clock: int): seq<int>
    requires |timings| == |amplitudes|
  {
    if |timings| == 0 then []
    else (if amplitudes[0] != 0 then [clock] else []) + PulseOnsets(timings[1..], amplitudes[1..], clock + timings[0])
  }

  /** Start times of the pulses of `w` when playback starts at `clock`. */
  function Onsets(w: Waveform, clock: int): seq<int>
    requires |w.timings| == |w.amplitudes|
  {
    PulseOnsets(w.timings, w.amplitudes, clock)
  }

  /** Playing one slot's entries followed by more entries. */
  lemma OnsetsEntries(gap: int, amp: int, rest: Waveform, clock: int)
    requires amp != 0 && |rest.timings| == |rest.amplitudes|
    ensures var w := Concat(Entries(gap, amp), rest);
            var start := if gap > 0 then clock + gap else clock;
            PulseOnsets(w.timings, w.amplitudes, clock) == [start] + PulseOnsets(rest.timings, rest.amplitudes, start + PulseMs)
  {
    var w := Concat(Entries(gap, amp), rest);
    if gap > 0 {
      assert w.timings[1..] == [PulseMs] + rest.timings;
      assert w.amplitudes[1..] == [amp] + rest.amplitudes;
      assert w.timings[1..][1..] == rest.timings;
      assert w.amplitudes[1..][1..] == rest.amplitudes;
    } else {
      assert w.timings[1..] == rest.timings;
      assert w.amplitudes[1..] == rest.amplitudes;
    }
  }

  /** Playing one slot's entries, for a slot not earlier than `last`, followed by more entries. */
  lemma OnsetsSlotEntries(t: Slot, last: int, rest: Waveform, clock: int)
    requires last <= t.second && Amplitude(t.intensity) != 0 && |rest.timings| == |rest.amplitudes|
    ensures var w := Concat(SlotEntries(t, last), rest);
            var start := clock + (t.second - last) * SecondMs;
            PulseOnsets(w.timings, w.amplitudes, clock) == [start] + PulseOnsets(rest.timings, rest.amplitudes, start + PulseMs)
  {
    OnsetsEntries((t.second - last) * SecondMs, Amplitude(t.intensity), rest, clock);
  }

  /** Playing the encoding of slots whose first slot is not earlier than `last`. */
  lemma OnsetsFirstPulse(vs: seq<Slot>, last: int, clock: int)
    requires |vs| > 0 && last <= vs[0].second && Amplitude(vs[0].intensity) != 0
    ensures var w := EncodeFrom(vs, last);
            var rest := EncodeFrom(vs[1..], vs[0].second + 1);
            var start := clock + (vs[0].second - last) * SecondMs;
            PulseOnsets(w.timings, w.amplitudes, clock) == [start] + PulseOnsets(rest.timings, rest.amplitudes, start + PulseMs)
  {
    var rest := EncodeFrom(vs[1..], vs[0].second + 1);
    OnsetsSlotEntries(vs[0], last, rest, clock);
    assert EncodeFrom(vs, last) == Concat(SlotEntries(vs[0], last), rest);
  }

  /** The clock arithmetic of one step of the drift. */
  lemma DriftStep(clock: int, last: int, first: int, later: int, j: int)
    ensures (clock + (first - last) * SecondMs + PulseMs) + (later - (first + 1)) * SecondMs - (SecondMs - PulseMs) * (j - 1)
            == clock + (later - last) * SecondMs - (SecondMs - PulseMs) * j
  {
  }

  /** Pulse `j` of the encoding of `vs` starts `800 * j` ms before the second it belongs to. */
  ghost predicate Drifts(vs: seq<Slot>, last: int, clock: int)
  {
    |Onsets(EncodeFrom(vs, last), clock)| == |vs| &&
    forall j :: 0 <= j < |vs| ==>
      Onsets(EncodeFrom(vs, last), clock)[j] == clock + (vs[j].second - last) * SecondMs - (SecondMs - PulseMs) * j
  }

  /** The drift of the first pulse's successors carries over to the whole sequence. */
  lemma DriftsFromTail(vs: seq<Slot>, last: int, clock: int)
    requires |vs| > 0 && last <= vs[0].second && Amplitude(vs[0].intensity) != 0
    requires Drifts(vs[1..], vs[0].second + 1, clock + (vs[0].second - last) * SecondMs + PulseMs)
    ensures Drifts(vs, last, clock)
  {
    OnsetsFirstPulse(vs, last, clock);
    var w, rest := EncodeFrom(vs, last), EncodeFrom(vs[1..], vs[0].second + 1);
    var on := PulseOnsets(w.timings, w.amplitudes, clock);
    var tail := PulseOnsets(rest.timings, rest.amplitudes, clock + (vs[0].second - last) * SecondMs + PulseMs);
    assert |on| == |vs| && on[0] == clock + (vs[0].second - last) * SecondMs;
    forall j | 1 <= j < |vs|
      ensures on[j] == clock + (vs[j].second - last) * SecondMs - (SecondMs - PulseMs) * j
    {
      assert on[j] == tail[j - 1];
      assert vs[1..][j - 1] == vs[j];
      DriftStep(clock, last, vs[0].second, vs[j].second, j);
    }
  }

  /**
   As written, the `j`-th pulse starts `800 * j` ms before its second: the
   encoding counts a whole second for each earlier pulse, which plays 200 ms.
   */
  lemma {:induction false} AsWrittenPulseDrift(vs: seq<Slot>, last: int, clock: int)
    requires StrictlyIncreasing(vs)
    requires forall s :: s in vs ==> 1 <= s.intensity
    requires |vs| > 0 ==> last <= vs[0].second
    ensures |Onsets(EncodeFrom(vs, last), clock)| == |vs|
    ensures forall j :: 0 <= j < |vs| ==>
              Onsets(EncodeFrom(vs, last), clock)[j] == clock + (vs[j].second - last) * SecondMs - (SecondMs - PulseMs) * j
    decreases |vs|
  {
    if |vs| > 0 {
      var t := vs[0];
      TailOfIncreasing(vs);
      AsWrittenPulseDrift(vs[1..], t.second + 1, clock + (t.second - last) * SecondMs + PulseMs);
      assert Amplitude(t.intensity) != 0 by {
        assert t in vs;
      }
      DriftsFromTail(vs, last, clock);
    }
  }

  /** Two vibrating seconds in a row: the second pulse starts at 200 ms instead of 1000 ms. */
  lemma AsWrittenConsecutiveSecondsOverlap()
    ensures var a := Slot(0, 60, true, Strong, Impact, 0);
            var b := Slot(1, 60, true, Strong, Impact, 0);
            var w := AndroidWaveform([a, b]);
            w == Waveform([200, 200], [153, 153]) &&
            PulseOnsets(w.timings, w.amplitudes, 0) == [0, 200]
  {
    var a := Slot(0, 60, true, Strong, Impact, 0);
    var b := Slot(1, 60, true, Strong, Impact, 0);
    BothVibrating(a, b);
    StrongPairEncoding(a, b);
    PairOnsets();
  }

  lemma BothVibrating(a: Slot, b: Slot)
    requires a.vibrate && b.vibrate
    ensures Vibrating([a, b]) == [a, b]
  {
    assert [a, b][..1] == [a];
    assert Vibrating([a]) == [a] by {
      assert [a][..0] == [];
    }
  }

  lemma StrongPairEncoding(a: Slot, b: Slot)
    requires a == Slot(0, 60, true, Strong, Impact, 0) && b == Slot(1, 60, true, Strong, Impact, 0)
    ensures EncodeFrom([a, b], 0) == Waveform([200, 200], [153, 153])
  {
    assert [a, b][1..] == [b];
    assert Amplitude(60) == 153;
    var one := Waveform([PulseMs], [153]);
    assert SlotEntries(a, 0) == one && SlotEntries(b, 1) == one;
    assert EncodeFrom([b], 1) == Concat(one, EncodeFrom([], 2)) == one;
  }

  lemma PairOnsets()
    ensures PulseOnsets([200, 200], [153, 153], 0) == [0, 200]
  {
    assert PulseOnsets([200, 200], [153, 153], 0) == [0] + PulseOnsets([200], [153], 200);
    assert PulseOnsets([200], [153], 200) == [200] + PulseOnsets([], [], 400);
  }

  /** The entries of the corrected encoding for slot `t` when the previous pulse ends at `clock` ms. */
  function AlignedEntries(t: Slot, clock: int): Waveform
  {
    Entries(t.second * SecondMs - clock, Amplitude(t.intensity))
  }

  /** The corrected encoding: `clock` is the time in ms at which the previous pulse ends. */
  function AlignedFrom(vs: seq<Slot>, clock: int): (w: Waveform)
    ensures |w.timings| == |w.amplitudes|
    ensures |vs| <= |w.timings| <= 2 * |vs|
  {
    if |vs| == 0 then Waveform([], [])
    else
      var t := vs[0];
      Concat(AlignedEntries(t, clock), AlignedFrom(vs[1..], t.second * SecondMs + PulseMs))
  }

  /** The corrected exporter: the vibrating slots, encoded from time 0. */
  function AlignedWaveform(timeline: seq<Slot>): (w: Waveform)
    ensures |w.timings| == |w.amplitudes|
  {
    AlignedFrom(Vibrating(timeline), 0)
  }

  /** Pulse `j` of the corrected encoding of `vs` starts on the second of `vs[j]`. */
  ghost predicate OnTheirSeconds(vs: seq<Slot>, clock: int)
  {
    |Onsets(AlignedFrom(vs, clock), clock)| == |vs| &&
    forall j :: 0 <= j < |vs| ==> Onsets(AlignedFrom(vs, clock), clock)[j] == vs[j].second * SecondMs
  }

  /** Playing the corrected encoding of slots whose first second starts no earlier than `clock`. */
  lemma AlignedFirstPulse(vs: seq<Slot>, clock: int)
    requires |vs| > 0 && clock <= vs[0].second * SecondMs && Amplitude(vs[0].intensity) != 0
    ensures Onsets(AlignedFrom(vs, clock), clock) ==
              [vs[0].second * SecondMs] + Onsets(AlignedFrom(vs[1..], vs[0].second * SecondMs + PulseMs), vs[0].second * SecondMs + PulseMs)
  {
    var s0 := vs[0].second * SecondMs;
    var rest := AlignedFrom(vs[1..], s0 + PulseMs);
    var w := AlignedFrom(vs, clock);
    assert w == Concat(Entries(s0 - clock, Amplitude(vs[0].intensity)), rest);
    OnsetsEntries(s0 - clock, Amplitude(vs[0].intensity), rest, clock);
    assert PulseOnsets(w.timings, w.amplitudes, clock) == [s0] + PulseOnsets(rest.timings, rest.amplitudes, s0 + PulseMs);
  }

  /** Alignment of the first pulse's successors carries over to the whole sequence. */
  lemma AlignedFromTail(vs: seq<Slot>, clock: int)
    requires |vs| > 0 && clock <= vs[0].second * SecondMs && Amplitude(vs[0].intensity) != 0
    requires OnTheirSeconds(vs[1..], vs[0].second * SecondMs + PulseMs)
    ensures OnTheirSeconds(vs, clock)
  {
    AlignedFirstPulse(vs, clock);
    var on := Onsets(AlignedFrom(vs, clock), clock);
    var tail := Onsets(AlignedFrom(vs[1..], vs[0].second * SecondMs + PulseMs), vs[0].second * SecondMs + PulseMs);
    forall j | 1 <= j < |vs|
      ensures on[j] == vs[j].second * SecondMs
    {
      assert on[j] == tail[j - 1];
      assert vs[1..][j - 1] == vs[j];
    }
  }

  /** With the corrected encoding every pulse starts exactly on its own second. */
  lemma {:induction false} AlignedPulsesOnTheirSeconds(vs: seq<Slot>, clock: int)
    requires StrictlyIncreasing(vs)
    requires forall s :: s in vs ==> 1 <= s.intensity
    requires |vs| > 0 ==> clock <= vs[0].second * SecondMs
    ensures |Onsets(AlignedFrom(vs, clock), clock)| == |vs|
    ensures forall j :: 0 <= j < |vs| ==> Onsets(AlignedFrom(vs, clock), clock)[j] == vs[j].second * SecondMs
    decreases |vs|
  {
    if |vs| > 0 {
      var t := vs[0];
      TailOfIncreasing(vs);
      assert clock <= t.second * SecondMs + PulseMs;
      AlignedPulsesOnTheirSeconds(vs[1..], t.second * SecondMs + PulseMs);
      assert Amplitude(t.intensity) != 0 by {
        assert t in vs;
      }
      AlignedFromTail(vs, clock);
    }
  }

  /** The corrected exporter on a timeline: one pulse per vibrating slot, each starting at that slot's second. */
  lemma AlignedWaveformOnSeconds(timeline: seq<Slot>)
    requires StrictlyIncreasing(timeline)
    requires AudiblePulses(timeline)
    ensures var w := AlignedWaveform(timeline);
            var v := Vibrating(timeline);
            var on := PulseOnsets(w.timings, w.amplitudes, 0);
            |on| == |v| && forall j :: 0 <= j < |v| ==> on[j] == v[j].second * SecondMs
  {
    VibratingKeepsOrder(timeline);
    var v := Vibrating(timeline);
    assert forall s :: s in v ==> 1 <= s.intensity;
    AlignedPulsesOnTheirSeconds(v, 0);
  }
}
