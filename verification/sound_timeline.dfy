/**
 Timeline classification of a waveform with a multi-label sound model:
 fixed 15600-sample windows every half second, every label at or above the
 threshold (optionally restricted to an allow-list of name fragments)
 becomes an event, and the events are ordered by start time and then by
 descending confidence. The model itself and the class-name table are
 parameters; the waveform is the already resampled mono signal.
 */
module SoundTimeline {
  import opened PyOps
  import opened Text
  import opened SoundEvents

  /** Length of the model's input window, in seconds and in samples. */
  const ChunkDuration: real := 0.975
  const ExpectedSamples: nat := 15600
  /** Windows start every half second. */
  const HopDuration: real := 0.5
  /** The model's input rate; 15600 samples are 0.975 s at this rate. */
  const ModelRate: nat := 16000

  datatype ClassifyError =
    | NoHop          // `range` with a zero step
    | UnknownClass   // a score above the threshold has no name in the class table

  datatype TimelineResult = TimelineResult(
    file: string,
    duration: real,
    sampleRate: nat,
    chunkDuration: real,
    hopDuration: real,
    threshold: real,
    totalEvents: nat,
    timeline: seq<SoundEvent>)

  /** `int(rate * HOP_DURATION)`: half the rate, rounded down. */
  function HopSamples(rate: nat): (h: nat)
    ensures h == rate / 2
  {
    assert rate as real * HopDuration == rate as real / 2 as real;
    TruncOfQuotient(rate, 2);
    Trunc(rate as real * HopDuration)
  }

  /** Start samples of the windows: only windows that fit entirely in the audio. */
  function WindowStarts(n: nat, hop: nat): (starts: seq<int>)
    requires hop > 0
    ensures |starts| == if n < ExpectedSamples then 0 else (n - ExpectedSamples) / hop + 1
    ensures forall k :: 0 <= k < |starts| ==> starts[k] == k * hop && starts[k] + ExpectedSamples <= n
    ensures |starts| * hop + ExpectedSamples > n
    ensures ValidWindows(n, starts)
  {
    RangeLength(0, n - ExpectedSamples + 1, hop);
    var r := Range(0, n - ExpectedSamples + 1, hop);
    assert forall k :: 0 <= k < |r| ==> 0 <= r[k] by {
      forall k | 0 <= k < |r|
        ensures 0 <= r[k]
      {
        MulLeft(0, k, hop);
      }
    }
    r
  }

  /** Every start leaves room for a whole window. */
  predicate ValidWindows(n: nat, starts: seq<int>)
  {
    forall k :: 0 <= k < |starts| ==> 0 <= starts[k] && starts[k] + ExpectedSamples <= n
  }

  function Chunk(y: seq<real>, start: int): (c: seq<real>)
    requires 0 <= start && start + ExpectedSamples <= |y|
    ensures |c| == ExpectedSamples
    ensures forall j :: 0 <= j < ExpectedSamples ==> c[j] == y[start + j]
  {
    y[start..start + ExpectedSamples]
  }

  /** Every score at or above the threshold has a class name. */
  predicate Labelled(scores: seq<real>, classes: seq<string>, threshold: real)
  {
    forall i :: 0 <= i < |scores| && scores[i] >= threshold ==> i < |classes|
  }

  predicate AllLabelled(y: seq<real>, starts: seq<int>, model: seq<real> -> seq<real>, classes: seq<string>, threshold: real)
    requires ValidWindows(|y|, starts)
  {
    forall k :: 0 <= k < |starts| ==> Labelled(model(Chunk(y, starts[k])), classes, threshold)
  }

  /** An empty allow-list keeps every label; otherwise some fragment must occur in the name, ignoring case. */
  predicate Allowed(targets: seq<string>, name: string)
  {
    |targets| == 0 || exists t :: t in targets && ContainsIgnoringCase(name, t)
  }

  /**
   The allow-list rules: the empty list and a list holding the name itself or
   the empty fragment keep a name; a non-empty list keeps what either of its
   non-empty parts keeps, and no more.
   */
  lemma AllowListRules(targets: seq<string>, more: seq<string>, name: string)
    ensures Allowed([], name)
    ensures Allowed([name], name)
    ensures Allowed([""] + targets, name)
    ensures |targets| > 0 && |more| > 0 ==>
              (Allowed(targets + more, name) <==> Allowed(targets, name) || Allowed(more, name))
  {
    OccursImpliesContains(Lower(name), Lower(name), 0);
    assert Lower(name)[0..|Lower(name)|] == Lower(name);
    assert ContainsIgnoringCase(name, name);
    OccursImpliesContains(Lower(name), Lower(""), 0);
    assert "" in [""] + targets;
    if |targets| > 0 && |more| > 0 {
      if Allowed(targets + more, name) {
        var t :| t in targets + more && ContainsIgnoringCase(name, t);
        assert t in targets || t in more;
      }
      if Allowed(targets, name) {
        var t :| t in targets && ContainsIgnoringCase(name, t);
        assert t in targets + more;
      }
      if Allowed(more, name) {
        var t :| t in more && ContainsIgnoringCase(name, t);
        assert t in targets + more;
      }
    }
  }

  /**
   What any reported event shows: a 0.975 s span, the class name of its label,
   a confidence at or above the threshold, and a name the allow-list keeps.
   */
  predicate Announced(e: SoundEvent, classes: seq<string>, threshold: real, targets: seq<string>)
  {
    e.timeEnd - e.timeStart == ChunkDuration && e.classId < |classes| && e.sound == classes[e.classId] &&
    e.confidence >= threshold && Allowed(targets, e.sound)
  }

  /** The event for label `classId` in the window starting at sample `start`. */
  function WindowEvent(start: nat, rate: nat, name: string, confidence: real, classId: nat): (e: SoundEvent)
    requires rate > 0
    ensures e.timeStart * rate as real == start as real
    ensures e.timeEnd - e.timeStart == ChunkDuration
    ensures e.timeCenter * 2.0 == e.timeStart + e.timeEnd
    ensures e.sound == name && e.confidence == confidence && e.classId == classId
  {
    var t := start as real / rate as real;
    SoundEvent(t, t + ChunkDuration, t + ChunkDuration / 2.0, name, confidence, classId)
  }

  /** Label `i` of a window is reported. */
  ghost predicate Reported(scores: seq<real>, classes: seq<string>, threshold: real, targets: seq<string>, i: int)
  {
    0 <= i < |scores| && scores[i] >= threshold && i < |classes| && Allowed(targets, classes[i])
  }

  /** The events of one window from label `idx` on, in label order. */
  function EventsFrom(start: nat, rate: nat, scores: seq<real>, classes: seq<string>, threshold: real, targets: seq<string>, idx: nat): (r: seq<SoundEvent>)
    requires rate > 0 && idx <= |scores| && Labelled(scores, classes, threshold)
    ensures |r| <= |scores| - idx
    ensures forall j :: 0 <= j < |r| ==> r[j].timeStart == start as real / rate as real
    ensures forall j :: 0 <= j < |r| ==> idx <= r[j].classId < |scores|
    ensures forall j, j' :: 0 <= j < j' < |r| ==> r[j].classId < r[j'].classId
    ensures forall j :: 0 <= j < |r| ==> Announced(r[j], classes, threshold, targets)
    decreases |scores| - idx
  {
    if idx == |scores| then []
    else if scores[idx] >= threshold && Allowed(targets, classes[idx]) then
      [WindowEvent(start, rate, classes[idx], scores[idx], idx)] + EventsFrom(start, rate, scores, classes, threshold, targets, idx + 1)
    else
      EventsFrom(start, rate, scores, classes, threshold, targets, idx + 1)
  }

  function WindowEvents(start: nat, rate: nat, scores: seq<real>, classes: seq<string>, threshold: real, targets: seq<string>): seq<SoundEvent>
    requires rate > 0 && Labelled(scores, classes, threshold)
  {
    EventsFrom(start, rate, scores, classes, threshold, targets, 0)
  }

  /** An event comes out of a window exactly when its label is reported there. */
  lemma {:induction false} EventsFromMembership(start: nat, rate: nat, scores: seq<real>, classes: seq<string>, threshold: real, targets: seq<string>, idx: nat, e: SoundEvent)
    requires rate > 0 && idx <= |scores| && Labelled(scores, classes, threshold)
    ensures e in EventsFrom(start, rate, scores, classes, threshold, targets, idx) <==>
      exists i :: idx <= i && Reported(scores, classes, threshold, targets, i) && e == WindowEvent(start, rate, classes[i], scores[i], i)
    decreases |scores| - idx
  {
    if idx < |scores| {
      EventsFromMembership(start, rate, scores, classes, threshold, targets, idx + 1, e);
      var r := EventsFrom(start, rate, scores, classes, threshold, targets, idx);
      var rest := EventsFrom(start, rate, scores, classes, threshold, targets, idx + 1);
      var here := Reported(scores, classes, threshold, targets, idx) && e == WindowEvent(start, rate, classes[idx], scores[idx], idx);
      assert e in r <==> here || e in rest by {
        if Reported(scores, classes, threshold, targets, idx) {
          assert r == [WindowEvent(start, rate, classes[idx], scores[idx], idx)] + rest;
        } else {
          assert r == rest;
        }
      }
      if here {
        assert idx <= idx && Reported(scores, classes, threshold, targets, idx) && e == WindowEvent(start, rate, classes[idx], scores[idx], idx);
      }
      if exists i :: idx <= i && Reported(scores, classes, threshold, targets, i) && e == WindowEvent(start, rate, classes[i], scores[i], i) {
        var i :| idx <= i && Reported(scores, classes, threshold, targets, i) && e == WindowEvent(start, rate, classes[i], scores[i], i);
        if i > idx {
          assert idx + 1 <= i;
        }
      }
    }
  }

  lemma WindowEventsMembership(start: nat, rate: nat, scores: seq<real>, classes: seq<string>, threshold: real, targets: seq<string>, e: SoundEvent)
    requires rate > 0 && Labelled(scores, classes, threshold)
    ensures e in WindowEvents(start, rate, scores, classes, threshold, targets) <==>
      exists i :: Reported(scores, classes, threshold, targets, i) && e == WindowEvent(start, rate, classes[i], scores[i], i)
  {
    EventsFromMembership(start, rate, scores, classes, threshold, targets, 0, e);
  }

  /** All events of all windows, window by window, before sorting. */
  function Emitted(y: seq<real>, rate: nat, starts: seq<int>, model: seq<real> -> seq<real>, classes: seq<string>, threshold: real, targets: seq<string>): (r: seq<SoundEvent>)
    requires rate > 0 && ValidWindows(|y|, starts) && AllLabelled(y, starts, model, classes, threshold)
    ensures forall j :: 0 <= j < |r| ==> Announced(r[j], classes, threshold, targets)
  {
    if |starts| == 0 then []
    else
      assert ValidWindows(|y|, starts[1..]);
      WindowEvents(starts[0], rate, model(Chunk(y, starts[0])), classes, threshold, targets)
        + Emitted(y, rate, starts[1..], model, classes, threshold, targets)
  }

  /** Window `w` reports label `i`, and `e` is its event. */
  ghost predicate EmittedBy(y: seq<real>, rate: nat, starts: seq<int>, model: seq<real> -> seq<real>, classes: seq<string>, threshold: real, targets: seq<string>, e: SoundEvent, w: int, i: int)
  {
    rate > 0 && 0 <= w < |starts| && 0 <= starts[w] && starts[w] + ExpectedSamples <= |y| &&
    var scores := model(Chunk(y, starts[w]));
    Reported(scores, classes, threshold, targets, i) &&
    e == WindowEvent(starts[w], rate, classes[i], scores[i], i)
  }

  lemma {:induction false} EmittedMembership(y: seq<real>, rate: nat, starts: seq<int>, model: seq<real> -> seq<real>, classes: seq<string>, threshold: real, targets: seq<string>, e: SoundEvent)
    requires rate > 0 && ValidWindows(|y|, starts) && AllLabelled(y, starts, model, classes, threshold)
    ensures e in Emitted(y, rate, starts, model, classes, threshold, targets) <==>
      exists w, i :: EmittedBy(y, rate, starts, model, classes, threshold, targets, e, w, i)
    decreases |starts|
  {
    if |starts| > 0 {
      var tail := starts[1..];
      assert ValidWindows(|y|, tail);
      EmittedMembership(y, rate, tail, model, classes, threshold, targets, e);
      var scores := model(Chunk(y, starts[0]));
      WindowEventsMembership(starts[0], rate, scores, classes, threshold, targets, e);
      if e in Emitted(y, rate, starts, model, classes, threshold, targets) {
        if e in WindowEvents(starts[0], rate, scores, classes, threshold, targets) {
          var i :| Reported(scores, classes, threshold, targets, i) && e == WindowEvent(starts[0], rate, classes[i], scores[i], i);
          assert EmittedBy(y, rate, starts, model, classes, threshold, targets, e, 0, i);
        } else {
          var w, i :| EmittedBy(y, rate, tail, model, classes, threshold, targets, e, w, i);
          assert EmittedBy(y, rate, starts, model, classes, threshold, targets, e, w + 1, i);
        }
      }
      if w, i :| EmittedBy(y, rate, starts, model, classes, threshold, targets, e, w, i) {
        if w == 0 {
          assert e in WindowEvents(starts[0], rate, scores, classes, threshold, targets);
        } else {
          assert EmittedBy(y, rate, tail, model, classes, threshold, targets, e, w - 1, i);
        }
      }
    }
  }

  /** `a` is met before `b` when the windows are visited in order: an earlier start, or the same start and a lower label. */
  predicate VisitedBefore(a: SoundEvent, b: SoundEvent)
  {
    a.timeStart < b.timeStart || (a.timeStart == b.timeStart && a.classId < b.classId)
  }

  predicate Increasing(starts: seq<int>)
  {
    forall k, k' :: 0 <= k < k' < |starts| ==> starts[k] < starts[k']
  }

  lemma QuotientOrder(a: int, b: int, rate: nat)
    requires a < b && rate > 0
    ensures a as real / rate as real < b as real / rate as real
  {
    assert b as real / rate as real - a as real / rate as real == (b - a) as real / rate as real;
  }

  /** The window starts step up by a positive hop. */
  lemma WindowStartsIncrease(n: nat, hop: nat)
    requires hop > 0
    ensures Increasing(WindowStarts(n, hop))
  {
    var starts := WindowStarts(n, hop);
    forall k, k' | 0 <= k < k' < |starts|
      ensures starts[k] < starts[k']
    {
      MulLeft(k + 1, k', hop);
      assert starts[k] == k * hop && starts[k'] == k' * hop;
      assert (k + 1) * hop == k * hop + hop;
    }
  }

  /** All events of `s` are met in visiting order. */
  predicate InVisitOrder(s: seq<SoundEvent>)
  {
    forall j, j' :: 0 <= j < j' < |s| ==> VisitedBefore(s[j], s[j'])
  }

  /** One window's events at time `t0`, followed by events in visiting order that all start later, are in visiting order. */
  lemma VisitOrderConcat(head: seq<SoundEvent>, rest: seq<SoundEvent>, t0: real)
    requires forall j :: 0 <= j < |head| ==> head[j].timeStart == t0
    requires forall j, j' :: 0 <= j < j' < |head| ==> head[j].classId < head[j'].classId
    requires forall j :: 0 <= j < |rest| ==> t0 < rest[j].timeStart
    requires InVisitOrder(rest)
    ensures InVisitOrder(head + rest)
    ensures forall j :: 0 <= j < |head + rest| ==> t0 <= (head + rest)[j].timeStart
  {
    var r := head + rest;
    forall j, j' | 0 <= j < j' < |r|
      ensures VisitedBefore(r[j], r[j'])
    {
      if |head| <= j {
        assert r[j] == rest[j - |head|] && r[j'] == rest[j' - |head|];
      } else if |head| <= j' {
        assert r[j] == head[j] && r[j'] == rest[j' - |head|];
      } else {
        assert r[j] == head[j] && r[j'] == head[j'];
      }
    }
  }

  /** Windows at increasing starts emit their events in visiting order, none earlier than the first window. */
  lemma {:induction false} EmittedInVisitOrder(y: seq<real>, rate: nat, starts: seq<int>, model: seq<real> -> seq<real>, classes: seq<string>, threshold: real, targets: seq<string>)
    requires rate > 0 && ValidWindows(|y|, starts) && AllLabelled(y, starts, model, classes, threshold) && Increasing(starts)
    ensures InVisitOrder(Emitted(y, rate, starts, model, classes, threshold, targets))
    ensures forall j :: 0 <= j < |Emitted(y, rate, starts, model, classes, threshold, targets)| ==> starts[0] as real / rate as real <= Emitted(y, rate, starts, model, classes, threshold, targets)[j].timeStart
    decreases |starts|
  {
    if |starts| > 0 {
      var tail := starts[1..];
      assert ValidWindows(|y|, tail);
      EmittedInVisitOrder(y, rate, tail, model, classes, threshold, targets);
      var t0 := starts[0] as real / rate as real;
      var head := WindowEvents(starts[0], rate, model(Chunk(y, starts[0])), classes, threshold, targets);
      var rest := Emitted(y, rate, tail, model, classes, threshold, targets);
      if |tail| > 0 {
        QuotientOrder(starts[0], starts[1], rate);
        assert tail[0] == starts[1];
      } else {
        assert rest == [];
      }
      VisitOrderConcat(head, rest, t0);
      assert Emitted(y, rate, starts, model, classes, threshold, targets) == head + rest;
    }
  }

  /** In a list without repeats every element occurs once. */
  lemma {:induction false} RepeatFreeCounts(s: seq<SoundEvent>, e: SoundEvent)
    requires forall j, j' :: 0 <= j < j' < |s| ==> s[j] != s[j']
    ensures multiset(s)[e] == if e in s then 1 else 0
    decreases |s|
  {
    if |s| > 0 {
      assert s == [s[0]] + s[1..];
      RepeatFreeCounts(s[1..], e);
      if e == s[0] {
        assert e !in s[1..];
      }
    }
  }

  /**
   The windows of the timeline are visited in increasing order, so no event
   is emitted twice: every reported label of every window occurs in the
   timeline exactly once, and nothing else occurs.
   */
  lemma TimelineCountsOnce(file: string, y: seq<real>, rate: nat, threshold: real, targets: seq<string>, classes: seq<string>, model: seq<real> -> seq<real>, e: SoundEvent)
    requires Classify(file, y, rate, threshold, targets, classes, model).Success?
    ensures var starts := WindowStarts(|y|, rate / 2);
      multiset(Classify(file, y, rate, threshold, targets, classes, model).value.timeline)[e] ==
        if exists w, i :: EmittedBy(y, rate, starts, model, classes, threshold, targets, e, w, i) then 1 else 0
  {
    var hop := rate / 2;
    var starts := WindowStarts(|y|, hop);
    WindowStartsIncrease(|y|, hop);
    EmittedInVisitOrder(y, rate, starts, model, classes, threshold, targets);
    var emitted := Emitted(y, rate, starts, model, classes, threshold, targets);
    RepeatFreeCounts(emitted, e);
    EmittedMembership(y, rate, starts, model, classes, threshold, targets, e);
  }

  /** `len(waveform) / SAMPLE_RATE`, in seconds. */
  function Duration(n: nat, rate: nat): (d: real)
    requires rate > 0
    ensures d * rate as real == n as real
    ensures 0.0 <= d
  {
    n as real / rate as real
  }

  /** `classify_with_timeline` on the resampled waveform `y`. */
  function Classify(file: string, y: seq<real>, rate: nat, threshold: real, targets: seq<string>, classes: seq<string>, model: seq<real> -> seq<real>): (r: Result<TimelineResult, ClassifyError>)
    ensures r.Failure? <==> rate / 2 == 0 || !AllLabelled(y, WindowStarts(|y|, rate / 2), model, classes, threshold)
    ensures r.Failure? && rate / 2 == 0 ==> r.error == NoHop
    ensures r.Failure? && rate / 2 > 0 ==> r.error == UnknownClass
    ensures r.Success? ==>
      var res := r.value;
      res.totalEvents == |res.timeline| && Sorted(res.timeline) &&
      multiset(res.timeline) == multiset(Emitted(y, rate, WindowStarts(|y|, rate / 2), model, classes, threshold, targets)) &&
      rate > 0 && res.duration == Duration(|y|, rate) && res.sampleRate == rate && res.threshold == threshold &&
      res.chunkDuration == ChunkDuration && res.hopDuration == HopDuration && res.file == file
  {
    var hop := HopSamples(rate);
    if hop == 0 then Failure(NoHop)
    else
      var starts := WindowStarts(|y|, hop);
      if !AllLabelled(y, starts, model, classes, threshold) then Failure(UnknownClass)
      else
        var events := Sort(Emitted(y, rate, starts, model, classes, threshold, targets));
        var duration := Duration(|y|, rate);
        Success(TimelineResult(file, duration, rate, ChunkDuration, HopDuration, threshold, |events|, events))
  }

  /** An event is in the timeline exactly when some window reports its label. */
  lemma TimelineMembership(file: string, y: seq<real>, rate: nat, threshold: real, targets: seq<string>, classes: seq<string>, model: seq<real> -> seq<real>, e: SoundEvent)
    requires Classify(file, y, rate, threshold, targets, classes, model).Success?
    ensures var starts := WindowStarts(|y|, rate / 2);
      e in Classify(file, y, rate, threshold, targets, classes, model).value.timeline <==>
      exists w, i :: EmittedBy(y, rate, starts, model, classes, threshold, targets, e, w, i)
  {
    var starts := WindowStarts(|y|, rate / 2);
    var timeline := Classify(file, y, rate, threshold, targets, classes, model).value.timeline;
    var emitted := Emitted(y, rate, starts, model, classes, threshold, targets);
    EmittedMembership(y, rate, starts, model, classes, threshold, targets, e);
    assert e in timeline <==> e in multiset(timeline);
    assert e in emitted <==> e in multiset(emitted);
  }

  /** Events with equal start time and confidence keep their window-by-window, label-by-label order. */
  lemma TimelineIsStable(file: string, y: seq<real>, rate: nat, threshold: real, targets: seq<string>, classes: seq<string>, model: seq<real> -> seq<real>, k: SoundEvent)
    requires Classify(file, y, rate, threshold, targets, classes, model).Success?
    ensures WithKeyOf(Classify(file, y, rate, threshold, targets, classes, model).value.timeline, k) ==
      WithKeyOf(Emitted(y, rate, WindowStarts(|y|, rate / 2), model, classes, threshold, targets), k)
  {
    SortIsStable(Emitted(y, rate, WindowStarts(|y|, rate / 2), model, classes, threshold, targets), k);
  }

  /** At the model's own rate every event's window lies inside the audio. */
  lemma EventsInsideAudio(file: string, y: seq<real>, threshold: real, targets: seq<string>, classes: seq<string>, model: seq<real> -> seq<real>, e: SoundEvent)
    requires Classify(file, y, ModelRate, threshold, targets, classes, model).Success?
    requires e in Classify(file, y, ModelRate, threshold, targets, classes, model).value.timeline
    ensures 0.0 <= e.timeStart && e.timeEnd <= Classify(file, y, ModelRate, threshold, targets, classes, model).value.duration
    ensures e.timeEnd - e.timeStart == ChunkDuration
  {
    var starts := WindowStarts(|y|, ModelRate / 2);
    TimelineMembership(file, y, ModelRate, threshold, targets, classes, model, e);
    var w, i :| EmittedBy(y, ModelRate, starts, model, classes, threshold, targets, e, w, i);
    var s := starts[w];
    assert e.timeStart * 16000.0 == s as real;
    assert (s + ExpectedSamples) as real <= |y| as real;
  }

  /** Audio shorter than one window yields an empty timeline. */
  lemma ShortAudioHasNoEvents(file: string, y: seq<real>, rate: nat, threshold: real, targets: seq<string>, classes: seq<string>, model: seq<real> -> seq<real>)
    requires rate >= 2 && |y| < ExpectedSamples
    ensures Classify(file, y, rate, threshold, targets, classes, model).Success?
    ensures Classify(file, y, rate, threshold, targets, classes, model).value.timeline == []
    ensures Classify(file, y, rate, threshold, targets, classes, model).value.totalEvents == 0
  {
    assert |WindowStarts(|y|, rate / 2)| == 0;
  }

  lemma {:induction false} QuietWindowHasNoEvents(start: nat, rate: nat, scores: seq<real>, classes: seq<string>, threshold: real, targets: seq<string>, idx: nat)
    requires rate > 0 && idx <= |scores|
    requires forall i :: 0 <= i < |scores| ==> scores[i] < threshold
    ensures EventsFrom(start, rate, scores, classes, threshold, targets, idx) == []
    decreases |scores| - idx
  {
    if idx < |scores| {
      QuietWindowHasNoEvents(start, rate, scores, classes, threshold, targets, idx + 1);
    }
  }

  lemma {:induction false} QuietWindowsHaveNoEvents(y: seq<real>, rate: nat, starts: seq<int>, model: seq<real> -> seq<real>, classes: seq<string>, threshold: real, targets: seq<string>)
    requires rate > 0 && ValidWindows(|y|, starts) && AllLabelled(y, starts, model, classes, threshold)
    requires forall c :: |c| == ExpectedSamples ==> forall i :: 0 <= i < |model(c)| ==> model(c)[i] < threshold
    ensures Emitted(y, rate, starts, model, classes, threshold, targets) == []
    decreases |starts|
  {
    if |starts| > 0 {
      assert ValidWindows(|y|, starts[1..]);
      QuietWindowsHaveNoEvents(y, rate, starts[1..], model, classes, threshold, targets);
      QuietWindowHasNoEvents(starts[0], rate, model(Chunk(y, starts[0])), classes, threshold, targets, 0);
    }
  }

  /** When no window scores any label at the threshold, the timeline is empty (and no class name is needed). */
  lemma QuietAudioHasNoEvents(file: string, y: seq<real>, rate: nat, threshold: real, targets: seq<string>, classes: seq<string>, model: seq<real> -> seq<real>)
    requires rate >= 2
    requires forall c :: |c| == ExpectedSamples ==> forall i :: 0 <= i < |model(c)| ==> model(c)[i] < threshold
    ensures Classify(file, y, rate, threshold, targets, classes, model).Success?
    ensures Classify(file, y, rate, threshold, targets, classes, model).value.timeline == []
  {
    var starts := WindowStarts(|y|, rate / 2);
    assert AllLabelled(y, starts, model, classes, threshold);
    QuietWindowsHaveNoEvents(y, rate, starts, model, classes, threshold, targets);
  }

  /** An allow-list of "slice" keeps the label "Slice" and drops "Door" from the same window. */
  lemma AllowListKeepsMatchingLabels(start: nat, rate: nat)
    requires rate > 0
    ensures WindowEvents(start, rate, [0.9, 0.9], ["Slice", "Door"], 0.1, ["slice"]) ==
      [WindowEvent(start, rate, "Slice", 0.9, 0)]
  {
    assert Lower("Slice") == "slice";
    assert Lower("slice") == "slice";
    assert Contains("slice", "slice");
    assert "slice" in ["slice"] && ContainsIgnoringCase("Slice", "slice");
    assert Lower("Door") == "door";
    assert !Contains("door", "slice") by {
      assert !Contains("door"[1..][1..][1..][1..], "slice");
      assert !Contains("door"[1..][1..][1..], "slice");
      assert !Contains("door"[1..][1..], "slice");
      assert !Contains("door"[1..], "slice");
    }
    assert !Allowed(["slice"], "Door");
  }

  /** `get_sound_events`: the timeline's events whose name contains `name`, ignoring case. */
  function MatchingEvents(events: seq<SoundEvent>, name: string): (r: seq<SoundEvent>)
    ensures |r| <= |events|
  {
    if |events| == 0 then []
    else if ContainsIgnoringCase(events[0].sound, name) then [events[0]] + MatchingEvents(events[1..], name)
    else MatchingEvents(events[1..], name)
  }

  function GetSoundEvents(result: TimelineResult, name: string): (r: seq<SoundEvent>)
    ensures |r| <= |result.timeline|
    ensures forall e :: e in r <==> e in result.timeline && ContainsIgnoringCase(e.sound, name)
  {
    MatchingMembership(result.timeline, name);
    MatchingEvents(result.timeline, name)
  }

  /** The selected events are exactly the events whose name contains the fragment, ignoring case. */
  lemma {:induction false} MatchingMembership(events: seq<SoundEvent>, name: string)
    ensures forall e :: e in MatchingEvents(events, name) <==> e in events && ContainsIgnoringCase(e.sound, name)
    decreases |events|
  {
    if |events| > 0 {
      MatchingMembership(events[1..], name);
      assert events == [events[0]] + events[1..];
    }
  }

  /** The first event of a list, when it matches, and nothing otherwise. */
  function HeadMatch(e: SoundEvent, name: string): seq<SoundEvent>
  {
    if ContainsIgnoringCase(e.sound, name) then [e] else []
  }

  lemma MatchingStep(s: seq<SoundEvent>, name: string)
    requires |s| > 0
    ensures MatchingEvents(s, name) == HeadMatch(s[0], name) + MatchingEvents(s[1..], name)
  {
  }

  /** Selecting from a concatenation selects from each part, in order. */
  lemma {:induction false} MatchingConcat(a: seq<SoundEvent>, b: seq<SoundEvent>, name: string)
    ensures MatchingEvents(a + b, name) == MatchingEvents(a, name) + MatchingEvents(b, name)
    decreases |a|
  {
    if |a| == 0 {
      assert a + b == b;
    } else {
      var ab := a + b;
      assert ab[0] == a[0] && ab[1..] == a[1..] + b;
      MatchingConcat(a[1..], b, name);
      MatchingStep(ab, name);
      MatchingStep(a, name);
      var h, x, z := HeadMatch(a[0], name), MatchingEvents(a[1..], name), MatchingEvents(b, name);
      assert h + (x + z) == (h + x) + z;
    }
  }

  /** Every matching event keeps its multiplicity, and every other event disappears. */
  lemma {:induction false} MatchingCounts(events: seq<SoundEvent>, name: string, e: SoundEvent)
    ensures multiset(MatchingEvents(events, name))[e] == if ContainsIgnoringCase(e.sound, name) then multiset(events)[e] else 0
    decreases |events|
  {
    if |events| > 0 {
      MatchingCounts(events[1..], name, e);
      assert events == [events[0]] + events[1..];
    }
  }

  /** Looking a name up twice gives the same events as once. */
  lemma {:induction false} MatchingIdempotent(events: seq<SoundEvent>, name: string)
    ensures MatchingEvents(MatchingEvents(events, name), name) == MatchingEvents(events, name)
    decreases |events|
  {
    if |events| > 0 {
      MatchingIdempotent(events[1..], name);
      var r := MatchingEvents(events, name);
      if ContainsIgnoringCase(events[0].sound, name) {
        assert r[0] == events[0] && r[1..] == MatchingEvents(events[1..], name);
      }
    }
  }

  /** In a sorted sequence the first event may precede every event found in the rest. */
  lemma HeadPrecedesMatches(events: seq<SoundEvent>, name: string, x: SoundEvent)
    requires |events| > 0 && Sorted(events)
    requires x in MatchingEvents(events[1..], name)
    ensures Precedes(events[0], x)
  {
    MatchingMembership(events[1..], name);
    var tail := events[1..];
    var k :| 0 <= k < |tail| && tail[k] == x;
    assert tail[k] == events[k + 1];
  }

  /** The looked-up events keep the timeline's order. */
  lemma {:induction false} MatchingKeepsOrder(events: seq<SoundEvent>, name: string)
    requires Sorted(events)
    ensures Sorted(MatchingEvents(events, name))
    decreases |events|
  {
    if |events| > 0 {
      var tail := events[1..];
      assert Sorted(tail);
      MatchingKeepsOrder(tail, name);
      var rest := MatchingEvents(tail, name);
      if ContainsIgnoringCase(events[0].sound, name) {
        var r := [events[0]] + rest;
        forall j, j' | 0 <= j < j' < |r|
          ensures Precedes(r[j], r[j'])
        {
          assert r[j'] == rest[j' - 1];
          if j > 0 {
            assert r[j] == rest[j - 1];
          } else {
            HeadPrecedesMatches(events, name, rest[j' - 1]);
          }
        }
      }
    }
  }

  lemma {:induction false} MatchingAll(events: seq<SoundEvent>, name: string)
    requires forall j :: 0 <= j < |events| ==> ContainsIgnoringCase(events[j].sound, name)
    ensures MatchingEvents(events, name) == events
    decreases |events|
  {
    if |events| > 0 {
      var tail := events[1..];
      forall j | 0 <= j < |tail|
        ensures ContainsIgnoringCase(tail[j].sound, name)
      {
        assert tail[j] == events[j + 1];
      }
      MatchingAll(tail, name);
      MatchingStep(events, name);
      assert events == [events[0]] + tail;
    }
  }

  /** Looking up the single fragment a run was restricted to returns that run's whole timeline. */
  lemma LookupOfOnlyTargetIsEverything(file: string, y: seq<real>, rate: nat, threshold: real, name: string, classes: seq<string>, model: seq<real> -> seq<real>)
    requires Classify(file, y, rate, threshold, [name], classes, model).Success?
    ensures var res := Classify(file, y, rate, threshold, [name], classes, model).value;
      GetSoundEvents(res, name) == res.timeline
  {
    var starts := WindowStarts(|y|, rate / 2);
    var timeline := Classify(file, y, rate, threshold, [name], classes, model).value.timeline;
    forall j | 0 <= j < |timeline|
      ensures ContainsIgnoringCase(timeline[j].sound, name)
    {
      var e := timeline[j];
      TimelineMembership(file, y, rate, threshold, [name], classes, model, e);
      var w, i :| EmittedBy(y, rate, starts, model, classes, threshold, [name], e, w, i);
      assert Allowed([name], classes[i]);
      var t :| t in [name] && ContainsIgnoringCase(classes[i], t);
    }
    MatchingAll(timeline, name);
  }
}
