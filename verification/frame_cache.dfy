/** The time-indexed frame cache: a FIFO of at most 200 arrival
    timestamps next to a dictionary from timestamp to frame, and the
    lookup of the frame whose timestamp is nearest to a requested time.
    The same logic appears three times in the repository (the stream
    reader class, the object detector script and a scratch script); this
    module models it once. Frames are an opaque type parameter. */
module FrameCache {
  import opened Wrappers

  /** Number of timestamps the deque holds before the oldest is evicted. */
  const Capacity: nat := 200

  /** The deque of timestamps (oldest first) and the frame dictionary. */
  datatype Cache<F> = Cache(timestamps: seq<real>, frames: map<real, F>)

  /** `KeyError` is the dictionary miss; `EmptySequence` is the error that
      an argmin over an empty array raises. */
  datatype CacheError = KeyError(key: real) | EmptySequence

  function Empty<F>(): (c: Cache<F>)
    ensures c.timestamps == [] && c.frames == map[]
  {
    Cache([], map[])
  }

  /** The shape every cache built by `Store` from fresh timestamps has: no
      timestamp twice, the dictionary keys are exactly the queued
      timestamps, and the queue is within capacity. */
  ghost predicate Consistent<F>(c: Cache<F>) {
    && NoDuplicates(c.timestamps)
    && c.frames.Keys == Elems(c.timestamps)
    && |c.timestamps| <= Capacity
  }

  /** The last `Capacity` elements of a sequence. */
  function Window(s: seq<real>): (w: seq<real>)
    ensures |w| == if |s| <= Capacity then |s| else Capacity
  {
    if |s| <= Capacity then s else s[|s| - Capacity..]
  }

  /** Store a frame under timestamp `t`. When the queue is full the oldest
      timestamp is first popped from the dictionary, then from the deque;
      the dictionary pop raises when that key is already gone (possible
      only after a timestamp was stored twice), and nothing changes. */
  function Store<F>(c: Cache<F>, t: real, frame: F): (r: Result<Cache<F>, CacheError>)
    ensures r.Failure? <==>
              |c.timestamps| == Capacity && c.timestamps[0] !in c.frames
    ensures r.Failure? ==> r.error == KeyError(c.timestamps[0])
    ensures r.Success? && |c.timestamps| < Capacity ==>
              r.value.timestamps == c.timestamps + [t]
    ensures r.Success? && |c.timestamps| == Capacity ==>
              r.value.timestamps == c.timestamps[1..] + [t]
    ensures r.Success? ==> t in r.value.frames && r.value.frames[t] == frame
    ensures r.Success? && |c.timestamps| <= Capacity ==>
              |r.value.timestamps| == if |c.timestamps| < Capacity then |c.timestamps| + 1 else Capacity
    ensures r.Success? ==>
              forall k :: k in r.value.frames && k != t ==> k in c.frames && r.value.frames[k] == c.frames[k]
    ensures r.Success? && |c.timestamps| == Capacity && c.timestamps[0] != t ==>
              c.timestamps[0] !in r.value.frames
    ensures r.Success? && |c.timestamps| < Capacity ==>
              forall k :: k in c.frames ==> k in r.value.frames
    ensures r.Success? && |c.timestamps| == Capacity ==>
              forall k :: k in c.frames && k != c.timestamps[0] ==> k in r.value.frames
  {
    if |c.timestamps| == Capacity then
      var oldest := c.timestamps[0];
      if oldest !in c.frames then Failure(KeyError(oldest))
      else Success(Cache(c.timestamps[1..] + [t], (c.frames - {oldest})[t := frame]))
    else
      Success(Cache(c.timestamps + [t], c.frames[t := frame]))
  }

  /** Storing a timestamp not yet queued into a consistent cache always
      succeeds, keeps the cache consistent, slides the window by one, and
      leaves the frames of the timestamps still queued untouched. */
  lemma StoreFresh<F>(c: Cache<F>, t: real, frame: F)
    requires Consistent(c)
    requires t !in c.timestamps
    ensures Store(c, t, frame).Success?
    ensures Consistent(Store(c, t, frame).value)
    ensures Store(c, t, frame).value.timestamps == Window(c.timestamps + [t])
    ensures forall k :: k in c.frames && k in Store(c, t, frame).value.frames ==>
              Store(c, t, frame).value.frames[k] == c.frames[k]
  {
    var ts := c.timestamps;
    var kept := if |ts| == Capacity then ts[1..] else ts;
    if |ts| == Capacity {
      assert ts[0] in Elems(ts);
      DropOldest(ts);
      assert (ts + [t])[|ts + [t]| - Capacity..] == ts[1..] + [t];
    }
    assert t !in kept by {
      assert forall i :: 0 <= i < |kept| ==> kept[i] in ts;
    }
    AppendFresh(kept, t);
  }

  /** Appending a new element to a duplicate-free sequence keeps it
      duplicate-free and adds just that element. */
  lemma AppendFresh(s: seq<real>, t: real)
    requires NoDuplicates(s) && t !in s
    ensures NoDuplicates(s + [t])
    ensures Elems(s + [t]) == Elems(s) + {t}
  {
    var s' := s + [t];
    forall i, j | 0 <= i < j < |s'| ensures s'[i] != s'[j] {
      assert s'[i] == s[i];
      if j < |s| {
        assert s'[j] == s[j];
      }
    }
  }

  /** Dropping the first element of a duplicate-free sequence keeps it
      duplicate-free and removes just that element. */
  lemma DropOldest(s: seq<real>)
    requires NoDuplicates(s) && |s| > 0
    ensures NoDuplicates(s[1..])
    ensures Elems(s[1..]) == Elems(s) - {s[0]}
  {
    SuffixNoDuplicates(s, 1);
    assert Elems(s) == {s[0]} + Elems(s[1..]) by {
      assert s == [s[0]] + s[1..];
    }
    assert s[0] !in Elems(s[1..]) by {
      forall k | 0 <= k < |s| - 1 ensures s[1..][k] != s[0] {
        assert s[1..][k] == s[k + 1];
      }
    }
  }

  /** Store a sequence of (timestamp, frame) arrivals, stopping at the
      first failure. */
  function StoreAll<F>(c: Cache<F>, arrivals: seq<(real, F)>): (r: Result<Cache<F>, CacheError>)
    ensures arrivals == [] ==> r == Success(c)
    decreases |arrivals|
  {
    if arrivals == [] then Success(c)
    else
      match Store(c, arrivals[0].0, arrivals[0].1)
      case Failure(e) => Failure(e)
      case Success(c') => StoreAll(c', arrivals[1..])
  }

  /** The arrival timestamps, in order. */
  function Times<F>(arrivals: seq<(real, F)>): (ts: seq<real>)
    ensures |ts| == |arrivals|
    ensures forall i :: 0 <= i < |arrivals| ==> ts[i] == arrivals[i].0
    decreases |arrivals|
  {
    if arrivals == [] then [] else [arrivals[0].0] + Times(arrivals[1..])
  }

  /** Taking the window twice is the same as taking it once over the
      longer sequence. */
  lemma WindowAppend(s: seq<real>, rest: seq<real>)
    ensures Window(Window(s) + rest) == Window(s + rest)
  {
    if |s| > Capacity {
      var w := Window(s);
      if |w + rest| <= Capacity {
        assert |rest| == 0;
        assert s + rest == s;
      } else {
        var a := (w + rest)[|w + rest| - Capacity..];
        var b := (s + rest)[|s + rest| - Capacity..];
        assert |a| == |b|;
        forall i | 0 <= i < |a| ensures a[i] == b[i] {
          var ia := |w + rest| - Capacity + i;
          var ib := |s + rest| - Capacity + i;
          if ia < |w| {
            assert (w + rest)[ia] == w[ia] == s[|s| - Capacity + ia];
            assert ib == |s| - Capacity + ia;
          }
        }
      }
    }
  }

  /** The first arrival of a duplicate-free history is not yet queued. */
  lemma FirstArrivalFresh<F>(c: Cache<F>, arrivals: seq<(real, F)>)
    requires arrivals != []
    requires NoDuplicates(c.timestamps + Times(arrivals))
    ensures arrivals[0].0 !in c.timestamps
  {
    var all := c.timestamps + Times(arrivals);
    assert arrivals[0].0 == all[|c.timestamps|];
    forall k | 0 <= k < |c.timestamps| ensures c.timestamps[k] != arrivals[0].0 {
      assert c.timestamps[k] == all[k];
    }
  }

  /** A suffix of a duplicate-free sequence is duplicate-free. */
  lemma SuffixNoDuplicates(s: seq<real>, off: nat)
    requires off <= |s|
    requires NoDuplicates(s)
    ensures NoDuplicates(s[off..])
  {
    forall i, j | 0 <= i < j < |s[off..]| ensures s[off..][i] != s[off..][j] {
      assert s[off..][i] == s[i + off] && s[off..][j] == s[j + off];
    }
  }

  /** Sliding the window over a duplicate-free history keeps the window
      followed by the later arrivals duplicate-free: it is a suffix. */
  lemma WindowThenRest(head: seq<real>, rest: seq<real>)
    requires NoDuplicates(head + rest)
    ensures NoDuplicates(Window(head) + rest)
  {
    var off := |head| - |Window(head)|;
    assert Window(head) + rest == (head + rest)[off..];
    SuffixNoDuplicates(head + rest, off);
  }

  /** The history seen by the recursive call is the same history, split
      after its first arrival. */
  lemma HistorySplit<F>(ts: seq<real>, arrivals: seq<(real, F)>)
    requires arrivals != []
    ensures ts + Times(arrivals) == (ts + [arrivals[0].0]) + Times(arrivals[1..])
  {
    assert Times(arrivals) == [arrivals[0].0] + Times(arrivals[1..]);
  }

  /** The sliding-window property: feeding a consistent cache arrivals
      whose timestamps are pairwise distinct and new never fails, and the
      result queues exactly the last 200 timestamps of everything seen. */
  lemma {:induction false} StoreAllWindow<F>(c: Cache<F>, arrivals: seq<(real, F)>)
    requires Consistent(c)
    requires NoDuplicates(c.timestamps + Times(arrivals))
    ensures StoreAll(c, arrivals).Success?
    ensures Consistent(StoreAll(c, arrivals).value)
    ensures StoreAll(c, arrivals).value.timestamps == Window(c.timestamps + Times(arrivals))
    decreases |arrivals|
  {
    if arrivals != [] {
      var t := arrivals[0].0;
      FirstArrivalFresh(c, arrivals);
      StoreFresh(c, t, arrivals[0].1);
      var c' := Store(c, t, arrivals[0].1).value;
      HistorySplit(c.timestamps, arrivals);
      WindowThenRest(c.timestamps + [t], Times(arrivals[1..]));
      StoreAllWindow(c', arrivals[1..]);
      WindowAppend(c.timestamps + [t], Times(arrivals[1..]));
    }
  }

  /** In a duplicate-free concatenation the two parts share nothing. */
  lemma PartsDisjoint(a: seq<real>, b: seq<real>, x: real)
    requires NoDuplicates(a + b)
    requires x in a
    ensures x !in b
  {
    var i :| 0 <= i < |a| && a[i] == x;
    forall j | 0 <= j < |b| ensures b[j] != x {
      assert (a + b)[i] == x && (a + b)[|a| + j] == b[j];
    }
  }

  /** An element of the window over `q + later` that is not among the
      later arrivals was already in `q`. */
  lemma WindowFromQueue(q: seq<real>, later: seq<real>, x: real)
    requires x in Window(q + later)
    requires x !in later
    ensures x in q
  {
    var w := Window(q + later);
    var i :| 0 <= i < |w| && w[i] == x;
    assert x in q + later by {
      assert w[i] == (q + later)[i + |q + later| - |w|];
    }
  }

  /** Under the same conditions, a frame that was already cached and is
      still cached keeps its frame. */
  lemma {:induction false} StoreAllKeepsOld<F>(c: Cache<F>, arrivals: seq<(real, F)>)
    requires Consistent(c)
    requires NoDuplicates(c.timestamps + Times(arrivals))
    ensures StoreAll(c, arrivals).Success?
    ensures forall k :: k in c.frames && k in StoreAll(c, arrivals).value.frames ==>
              StoreAll(c, arrivals).value.frames[k] == c.frames[k]
    decreases |arrivals|
  {
    StoreAllWindow(c, arrivals);
    if arrivals != [] {
      var t := arrivals[0].0;
      FirstArrivalFresh(c, arrivals);
      StoreFresh(c, t, arrivals[0].1);
      var c' := Store(c, t, arrivals[0].1).value;
      var rest := arrivals[1..];
      HistorySplit(c.timestamps, arrivals);
      WindowThenRest(c.timestamps + [t], Times(rest));
      StoreAllKeepsOld(c', rest);
      StoreAllWindow(c', rest);
      var r := StoreAll(c', rest).value;
      assert StoreAll(c, arrivals).value == r;
      forall k | k in c.frames && k in r.frames ensures r.frames[k] == c.frames[k] {
        assert k in Elems(c.timestamps) && k in Elems(r.timestamps);
        PartsDisjoint(c.timestamps, Times(arrivals), k);
        assert Times(arrivals) == [t] + Times(rest);
        WindowFromQueue(c'.timestamps, Times(rest), k);
        assert k in c'.frames;
      }
    }
  }

  /** Under the same conditions, each arrival still in the window maps to
      the frame that arrived with it. */
  lemma {:induction false} StoreAllFrames<F>(c: Cache<F>, arrivals: seq<(real, F)>)
    requires Consistent(c)
    requires NoDuplicates(c.timestamps + Times(arrivals))
    ensures StoreAll(c, arrivals).Success?
    ensures forall i :: 0 <= i < |arrivals| && arrivals[i].0 in StoreAll(c, arrivals).value.frames ==>
              StoreAll(c, arrivals).value.frames[arrivals[i].0] == arrivals[i].1
    decreases |arrivals|
  {
    StoreAllWindow(c, arrivals);
    if arrivals != [] {
      var t := arrivals[0].0;
      FirstArrivalFresh(c, arrivals);
      StoreFresh(c, t, arrivals[0].1);
      var c' := Store(c, t, arrivals[0].1).value;
      var rest := arrivals[1..];
      HistorySplit(c.timestamps, arrivals);
      WindowThenRest(c.timestamps + [t], Times(rest));
      StoreAllFrames(c', rest);
      StoreAllKeepsOld(c', rest);
      var r := StoreAll(c', rest).value;
      assert StoreAll(c, arrivals).value == r;
      forall i | 0 <= i < |arrivals| && arrivals[i].0 in r.frames
        ensures r.frames[arrivals[i].0] == arrivals[i].1
      {
        if i > 0 {
          assert arrivals[i] == rest[i - 1];
        } else {
          assert t in c'.frames;
        }
      }
    }
  }

  /** Absolute difference, the distance `np.abs(array - value)` measures. */
  function Dist(a: real, v: real): (d: real)
    ensures d >= 0.0
    ensures d == 0.0 <==> a == v
  {
    if a >= v then a - v else v - a
  }

  /** `argmin` of the distances: the first index whose distance is
      minimal. */
  function NearestIndex(a: seq<real>, v: real): (k: nat)
    requires |a| > 0
    ensures k < |a|
    ensures forall j :: 0 <= j < |a| ==> Dist(a[k], v) <= Dist(a[j], v)
    ensures forall j :: 0 <= j < k ==> Dist(a[k], v) < Dist(a[j], v)
    decreases |a|
  {
    if |a| == 1 then 0
    else
      var k := NearestIndex(a[..|a| - 1], v);
      if Dist(a[|a| - 1], v) < Dist(a[k], v) then |a| - 1 else k
  }

  /** The nearest element; an empty array raises. */
  function FindNearest(a: seq<real>, v: real): (r: Result<real, CacheError>)
    ensures r.Failure? <==> |a| == 0
    ensures r.Failure? ==> r.error == EmptySequence
    ensures r.Success? ==> r.value in a
    ensures r.Success? ==> forall j :: 0 <= j < |a| ==> Dist(r.value, v) <= Dist(a[j], v)
  {
    if |a| == 0 then Failure(EmptySequence) else Success(a[NearestIndex(a, v)])
  }

  /** The first-minimum rule determines the index uniquely: any index
      that is minimal and strictly beats every earlier one is the one
      `NearestIndex` picks, so ties go to the lowest index. */
  lemma NearestIndexUnique(a: seq<real>, v: real, k: nat)
    requires k < |a|
    requires forall j :: 0 <= j < |a| ==> Dist(a[k], v) <= Dist(a[j], v)
    requires forall j :: 0 <= j < k ==> Dist(a[k], v) < Dist(a[j], v)
    ensures NearestIndex(a, v) == k
  {
  }

  /** A value exactly half-way between two neighbours resolves to the
      earlier one: when `a[i + 1]` is a nearest element, strictly nearer
      than everything before `a[i]`, and `a[i]` is just as near, the lookup
      answers `a[i]`. */
  lemma TieGoesToEarlier(a: seq<real>, v: real, i: nat)
    requires i + 1 < |a|
    requires Dist(a[i], v) == Dist(a[i + 1], v)
    requires forall j :: 0 <= j < |a| ==> Dist(a[i + 1], v) <= Dist(a[j], v)
    requires forall j :: 0 <= j < i ==> Dist(a[i + 1], v) < Dist(a[j], v)
    ensures NearestIndex(a, v) == i
    ensures FindNearest(a, v) == Success(a[i])
  {
    NearestIndexUnique(a, v, i);
  }

  /** The timestamps the find-nearest examples use. */
  const ExampleTimes: seq<real> := [1.0, 4.0, 7.0, 8.0, 12.0, 14.0, 17.0, 19.0, 25.0, 26.0]

  /** 25.5 lies half-way between 25 and 26 and resolves to 25; 10.5 is
      nearer to 12 than to 8. */
  lemma FindNearestExamples()
    ensures FindNearest(ExampleTimes, 25.5) == Success(25.0)
    ensures FindNearest(ExampleTimes, 10.5) == Success(12.0)
  {
    TieGoesToEarlier(ExampleTimes, 25.5, 8);
    NearestIndexUnique(ExampleTimes, 10.5, 4);
  }

  /** Look up the frame under the stored timestamp nearest to `t`. */
  function GetFrame<F>(c: Cache<F>, t: real): (r: Result<F, CacheError>)
    ensures |c.timestamps| == 0 ==> r == Failure(EmptySequence)
    ensures Consistent(c) && |c.timestamps| > 0 ==>
              r.Success? && FindNearest(c.timestamps, t).value in c.frames &&
              r.value == c.frames[FindNearest(c.timestamps, t).value]
  {
    match FindNearest(c.timestamps, t)
    case Failure(e) => Failure(e)
    case Success(s) => if s in c.frames then Success(c.frames[s]) else Failure(KeyError(s))
  }

  /** In a consistent cache, asking for a stored timestamp returns the
      frame stored under it. */
  lemma GetStoredFrame<F>(c: Cache<F>, t: real)
    requires Consistent(c)
    requires t in c.frames
    ensures GetFrame(c, t) == Success(c.frames[t])
  {
    var a := c.timestamps;
    assert t in Elems(a);
    var k := NearestIndex(a, t);
    var i :| 0 <= i < |a| && a[i] == t;
    assert Dist(a[k], t) <= Dist(a[i], t) == 0.0;
  }

  /** Storing a fresh timestamp and asking for it at once returns the
      frame just stored. */
  lemma StoreThenGet<F>(c: Cache<F>, t: real, frame: F)
    requires Consistent(c)
    requires t !in c.timestamps
    ensures Store(c, t, frame).Success?
    ensures GetFrame(Store(c, t, frame).value, t) == Success(frame)
  {
    StoreFresh(c, t, frame);
    GetStoredFrame(Store(c, t, frame).value, t);
  }
}
