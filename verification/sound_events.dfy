/**
 Sound-label events of the sliding-window classifier and the final ordering
 of the timeline: Python's stable `list.sort` with the key
 `(time_start, -confidence)`, modelled as an insertion sort.
 */
module SoundEvents {

  /** One label detected in one window. */
  datatype SoundEvent = SoundEvent(timeStart: real, timeEnd: real, timeCenter: real, sound: string, confidence: real, classId: nat)

  /** `a` may come before `b`: earlier start, or the same start and at least the confidence. */
  predicate Precedes(a: SoundEvent, b: SoundEvent)
  {
    a.timeStart < b.timeStart || (a.timeStart == b.timeStart && a.confidence >= b.confidence)
  }

  /** Equal sort keys. */
  predicate SameKey(a: SoundEvent, b: SoundEvent)
  {
    a.timeStart == b.timeStart && a.confidence == b.confidence
  }

  /** `Precedes` is a total preorder whose two-way pairs are exactly the equal keys. */
  lemma PrecedesIsTotalPreorder(a: SoundEvent, b: SoundEvent, c: SoundEvent)
    ensures Precedes(a, a)
    ensures Precedes(a, b) || Precedes(b, a)
    ensures Precedes(a, b) && Precedes(b, c) ==> Precedes(a, c)
    ensures Precedes(a, b) && Precedes(b, a) <==> SameKey(a, b)
  {
  }

  ghost predicate Sorted(s: seq<SoundEvent>)
  {
    forall i, j :: 0 <= i < j < |s| ==> Precedes(s[i], s[j])
  }

  /** Places `e` before the first element it may precede. */
  function Insert(e: SoundEvent, t: seq<SoundEvent>): (r: seq<SoundEvent>)
    ensures |r| == |t| + 1
  {
    if |t| == 0 then [e]
    else if Precedes(e, t[0]) then [e] + t
    else [t[0]] + Insert(e, t[1..])
  }

  /** Insertion adds exactly the one element. */
  lemma {:induction false} InsertCounts(e: SoundEvent, t: seq<SoundEvent>)
    ensures multiset(Insert(e, t)) == multiset(t) + multiset{e}
    decreases |t|
  {
    if |t| > 0 {
      assert t == [t[0]] + t[1..];
      if !Precedes(e, t[0]) {
        InsertCounts(e, t[1..]);
      }
    }
  }

  /** When `e` goes behind the head of a sorted `t`, that head may precede everything inserted behind it. */
  lemma HeadPrecedesInserted(e: SoundEvent, t: seq<SoundEvent>, x: SoundEvent)
    requires |t| > 0 && Sorted(t) && !Precedes(e, t[0])
    requires x in Insert(e, t[1..])
    ensures Precedes(t[0], x)
  {
    InsertCounts(e, t[1..]);
    assert x in multiset(Insert(e, t[1..]));
    if x == e {
      PrecedesIsTotalPreorder(e, t[0], e);
    } else {
      assert x in multiset(t[1..]);
      var k :| 0 <= k < |t[1..]| && t[1..][k] == x;
      assert t[1..][k] == t[k + 1];
    }
  }

  lemma {:induction false} InsertSorted(e: SoundEvent, t: seq<SoundEvent>)
    requires Sorted(t)
    ensures Sorted(Insert(e, t))
    decreases |t|
  {
    if |t| > 0 {
      if Precedes(e, t[0]) {
        var r := [e] + t;
        assert Insert(e, t) == r;
        forall i, j | 0 <= i < j < |r|
          ensures Precedes(r[i], r[j])
        {
          assert r[j] == t[j - 1];
          if i == 0 {
            PrecedesIsTotalPreorder(e, t[0], t[j - 1]);
          } else {
            assert r[i] == t[i - 1];
          }
        }
      } else {
        var tail := t[1..];
        assert Sorted(tail);
        InsertSorted(e, tail);
        var ins := Insert(e, tail);
        var r := [t[0]] + ins;
        assert Insert(e, t) == r;
        forall i, j | 0 <= i < j < |r|
          ensures Precedes(r[i], r[j])
        {
          assert r[j] == ins[j - 1];
          if i == 0 {
            HeadPrecedesInserted(e, t, ins[j - 1]);
          } else {
            assert r[i] == ins[i - 1];
          }
        }
      }
    }
  }

  /** Insertion sort, inserting each element in front of the sorted rest. */
  function Sort(s: seq<SoundEvent>): (r: seq<SoundEvent>)
    ensures multiset(r) == multiset(s)
    ensures |r| == |s|
    ensures Sorted(r)
  {
    if |s| == 0 then []
    else
      assert s == [s[0]] + s[1..];
      InsertCounts(s[0], Sort(s[1..]));
      InsertSorted(s[0], Sort(s[1..]));
      Insert(s[0], Sort(s[1..]))
  }

  /** `x` alone when it has `k`'s key, and nothing otherwise. */
  function KeyHead(x: SoundEvent, k: SoundEvent): seq<SoundEvent>
  {
    if SameKey(x, k) then [x] else []
  }

  /** The elements of `s` whose key equals `k`'s, in order. */
  function WithKeyOf(s: seq<SoundEvent>, k: SoundEvent): seq<SoundEvent>
  {
    if |s| == 0 then []
    else KeyHead(s[0], k) + WithKeyOf(s[1..], k)
  }

  lemma WithKeyOfStep(s: seq<SoundEvent>, k: SoundEvent)
    requires |s| > 0
    ensures WithKeyOf(s, k) == KeyHead(s[0], k) + WithKeyOf(s[1..], k)
  {
  }

  lemma {:induction false} WithKeyOfInsert(e: SoundEvent, t: seq<SoundEvent>, k: SoundEvent)
    ensures WithKeyOf(Insert(e, t), k) == KeyHead(e, k) + WithKeyOf(t, k)
    decreases |t|
  {
    var r := Insert(e, t);
    WithKeyOfStep(r, k);
    if |t| == 0 {
      assert r == [e] && r[1..] == t;
    } else if Precedes(e, t[0]) {
      assert r == [e] + t;
      assert r[0] == e && r[1..] == t;
    } else {
      var ins := Insert(e, t[1..]);
      WithKeyOfInsert(e, t[1..], k);
      WithKeyOfStep(t, k);
      assert r == [t[0]] + ins;
      assert r[0] == t[0] && r[1..] == ins;
      var he, ht, w := KeyHead(e, k), KeyHead(t[0], k), WithKeyOf(t[1..], k);
      assert WithKeyOf(r, k) == ht + (he + w);
      // e and t[0] cannot both have k's key, since equal keys would let e precede t[0].
      if SameKey(e, k) {
        assert ht == [];
      } else {
        assert he == [];
      }
    }
  }

  /** The sort is stable: the events sharing any one key keep their original relative order. */
  lemma {:induction false} SortIsStable(s: seq<SoundEvent>, k: SoundEvent)
    ensures WithKeyOf(Sort(s), k) == WithKeyOf(s, k)
    decreases |s|
  {
    if |s| > 0 {
      SortIsStable(s[1..], k);
      WithKeyOfInsert(s[0], Sort(s[1..]), k);
    }
  }
}
