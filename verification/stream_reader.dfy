/** The consumer side of the stream reader: frames taken off the capture
    buffer are cached under the consumer's clock time, at most one every
    half second. The clock reading is a parameter of each step; the buffer,
    the capture thread and the reconnection path are not modelled. */
module StreamReader {
  import opened Wrappers
  import opened FrameCache

  /** Minimum time between two cached frames, in seconds. */
  const MinGap: real := 0.5

  /** The reader's frame cache and the time the last cached frame was
      taken (`t_latest_frame`). */
  datatype Reader<F> = Reader(cache: Cache<F>, latest: real)

  /** A fresh reader: empty cache, latest-frame time zero. */
  function NewReader<F>(): (r: Reader<F>)
    ensures r.cache.timestamps == [] && r.cache.frames == map[]
    ensures r.latest == 0.0
  {
    Reader(Empty(), 0.0)
  }

  /** One turn of the consumer loop: the frame read at clock time `t` is
      cached under `t`, and `t` becomes the latest-frame time, exactly when
      at least `MinGap` passed since the latest cached frame; otherwise the
      frame is dropped and nothing changes. */
  function Consume<F>(r: Reader<F>, t: real, frame: F): (r': Result<Reader<F>, CacheError>)
    ensures t - r.latest < MinGap ==> r' == Success(r)
    ensures t - r.latest >= MinGap ==>
              (r'.Failure? <==> |r.cache.timestamps| == Capacity && r.cache.timestamps[0] !in r.cache.frames)
    ensures r'.Success? && t - r.latest >= MinGap ==>
              && r'.value.latest == t
              && |r'.value.cache.timestamps| > 0
              && r'.value.cache.timestamps[|r'.value.cache.timestamps| - 1] == t
              && t in r'.value.cache.frames && r'.value.cache.frames[t] == frame
    ensures t - r.latest >= MinGap ==>
              && (r'.Success? <==> Store(r.cache, t, frame).Success?)
              && (r'.Success? ==> r'.value.cache == Store(r.cache, t, frame).value)
    ensures r'.Success? ==> r'.value.latest >= r.latest
    ensures r'.Success? ==>
              && (forall k :: k in r'.value.cache.timestamps ==> k in r.cache.timestamps || k == t)
              && (forall k :: k in r'.value.cache.frames ==> k in r.cache.frames || k == t)
  {
    if t - r.latest >= MinGap then
      match Store(r.cache, t, frame)
      case Failure(e) => Failure(e)
      case Success(c) => Success(Reader(c, t))
    else
      Success(r)
  }

  /** What every reaction of the consumer keeps: the cache is consistent,
      every cached timestamp is at most the latest-frame time, the newest
      cached timestamp is the latest-frame time, and consecutive cached
      timestamps are at least `MinGap` apart. */
  ghost predicate Throttled<F>(r: Reader<F>) {
    var ts := r.cache.timestamps;
    && Consistent(r.cache)
    && (forall i :: 0 <= i < |ts| ==> ts[i] <= r.latest)
    && (|ts| > 0 ==> ts[|ts| - 1] == r.latest)
    && (forall i :: 0 < i < |ts| ==> ts[i] - ts[i - 1] >= MinGap)
  }

  /** A suffix keeps the bounds and the spacing of a sequence. */
  lemma SpacingOfSuffix(ts: seq<real>, off: nat, latest: real)
    requires off <= |ts|
    requires forall i :: 0 <= i < |ts| ==> ts[i] <= latest
    requires forall i :: 0 < i < |ts| ==> ts[i] - ts[i - 1] >= MinGap
    ensures forall i :: 0 <= i < |ts[off..]| ==> ts[off..][i] <= latest
    ensures forall i :: 0 < i < |ts[off..]| ==> ts[off..][i] - ts[off..][i - 1] >= MinGap
  {
    forall i | 0 < i < |ts[off..]| ensures ts[off..][i] - ts[off..][i - 1] >= MinGap {
      assert ts[off..][i] == ts[off + i] && ts[off..][i - 1] == ts[off + i - 1];
    }
  }

  /** Appending a time at least `MinGap` past the newest entry to a
      spaced sequence, and keeping the last 200, gives a spaced sequence
      whose every entry is at most the new time. */
  lemma SpacingOfWindow(ts: seq<real>, t: real, latest: real)
    requires forall i :: 0 <= i < |ts| ==> ts[i] <= latest
    requires |ts| > 0 ==> ts[|ts| - 1] == latest
    requires forall i :: 0 < i < |ts| ==> ts[i] - ts[i - 1] >= MinGap
    requires t - latest >= MinGap
    ensures forall i :: 0 <= i < |Window(ts + [t])| ==> Window(ts + [t])[i] <= t
    ensures forall i :: 0 < i < |Window(ts + [t])| ==> Window(ts + [t])[i] - Window(ts + [t])[i - 1] >= MinGap
  {
    var s := ts + [t];
    assert forall i :: 0 <= i < |s| ==> s[i] <= t;
    forall i | 0 < i < |s| ensures s[i] - s[i - 1] >= MinGap {
      if i == |ts| {
        assert s[i - 1] == ts[|ts| - 1] == latest;
      } else {
        assert s[i] == ts[i] && s[i - 1] == ts[i - 1];
      }
    }
    SpacingOfSuffix(s, |s| - |Window(s)|, t);
    assert Window(s) == s[|s| - |Window(s)|..];
  }

  /** The consumer step never hits the cache's duplicate-key failure and
      keeps the throttle invariant, whatever the clock does: a frame is
      only stored when its time is at least `MinGap` past every cached
      timestamp. */
  lemma ConsumeKeepsThrottled<F>(r: Reader<F>, t: real, frame: F)
    requires Throttled(r)
    ensures Consume(r, t, frame).Success?
    ensures Throttled(Consume(r, t, frame).value)
  {
    var ts := r.cache.timestamps;
    if t - r.latest >= MinGap {
      assert t !in ts by {
        forall i | 0 <= i < |ts| ensures ts[i] != t {
          assert ts[i] <= r.latest;
        }
      }
      StoreFresh(r.cache, t, frame);
      SpacingOfWindow(ts, t, r.latest);
    }
  }

  /** The consumer loop over a sequence of (clock time, frame) readings:
      the latest-frame time never goes back, and every timestamp and frame
      key it ends up with was cached before or is the time of a reading. */
  function ConsumeAll<F>(r: Reader<F>, readings: seq<(real, F)>): (r': Result<Reader<F>, CacheError>)
    ensures readings == [] ==> r' == Success(r)
    ensures r'.Success? ==> r'.value.latest >= r.latest
    ensures r'.Success? ==> forall k :: k in r'.value.cache.timestamps ==>
              k in r.cache.timestamps || exists i :: 0 <= i < |readings| && readings[i].0 == k
    ensures r'.Success? ==> forall k :: k in r'.value.cache.frames ==>
              k in r.cache.frames || exists i :: 0 <= i < |readings| && readings[i].0 == k
    decreases |readings|
  {
    if readings == [] then Success(r)
    else
      match Consume(r, readings[0].0, readings[0].1)
      case Failure(e) => Failure(e)
      case Success(next) =>
        assert forall i :: 0 <= i < |readings[1..]| ==> readings[1..][i] == readings[i + 1];
        ConsumeAll(next, readings[1..])
  }

  /** The readings the throttle lets through, independently of the cache:
      a reading passes when its time is at least `MinGap` past the last one
      that passed, or past `latest` before any did. Each passing reading
      comes from the input, the first is at least `MinGap` past `latest`,
      and any two are at least `MinGap` apart. */
  function Accepted<F>(latest: real, readings: seq<(real, F)>): (acc: seq<(real, F)>)
    ensures |acc| <= |readings|
    ensures forall i :: 0 <= i < |acc| ==> acc[i] in readings
    ensures forall i :: 0 <= i < |acc| ==> acc[i].0 - latest >= MinGap
    ensures forall i, j :: 0 <= i < j < |acc| ==> acc[j].0 - acc[i].0 >= MinGap
    decreases |readings|
  {
    if readings == [] then []
    else
      var rest := Accepted(if readings[0].0 - latest >= MinGap then readings[0].0 else latest, readings[1..]);
      assert forall x :: x in readings[1..] ==> x in readings;
      if readings[0].0 - latest >= MinGap then [readings[0]] + rest else rest
  }

  /** The latest-frame time after the readings `acc` passed the throttle:
      the time of the last one, or `latest` when none passed. */
  function LastTime<F>(latest: real, acc: seq<(real, F)>): real {
    if acc == [] then latest else acc[|acc| - 1].0
  }

  /** The consumer loop is the frame cache fed with exactly the readings
      the throttle lets through: it fails exactly when that feed fails, and
      otherwise ends with the cache that feed leaves and the time of the
      last reading let through. */
  lemma {:induction false} ConsumeAllStoresAccepted<F>(r: Reader<F>, readings: seq<(real, F)>)
    ensures var acc := Accepted(r.latest, readings);
      && (ConsumeAll(r, readings).Success? <==> StoreAll(r.cache, acc).Success?)
      && (ConsumeAll(r, readings).Success? ==>
            ConsumeAll(r, readings).value == Reader(StoreAll(r.cache, acc).value, LastTime(r.latest, acc)))
    decreases |readings|
  {
    if readings != [] {
      var (t, frame) := readings[0];
      var rest := readings[1..];
      if t - r.latest >= MinGap {
        var tail := Accepted(t, rest);
        var acc := [readings[0]] + tail;
        assert Accepted(r.latest, readings) == acc;
        assert acc[0] == (t, frame) && acc[1..] == tail;
        match Store(r.cache, t, frame)
        case Failure(_) =>
        case Success(c) =>
          ConsumeAllStoresAccepted(Reader(c, t), rest);
          assert LastTime(r.latest, acc) == LastTime(t, tail);
      } else {
        ConsumeAllStoresAccepted(r, rest);
      }
    }
  }

  /** A throttled reader's cache, after any run, queues exactly the last
      200 times of what it held and the readings the throttle let through,
      and every one of those readings still cached maps to its own frame. */
  lemma ConsumeAllWindow<F>(r: Reader<F>, readings: seq<(real, F)>)
    requires Throttled(r)
    ensures ConsumeAll(r, readings).Success?
    ensures ConsumeAll(r, readings).value.cache.timestamps
            == Window(r.cache.timestamps + Times(Accepted(r.latest, readings)))
    ensures forall i ::
              (0 <= i < |Accepted(r.latest, readings)|
               && Accepted(r.latest, readings)[i].0 in ConsumeAll(r, readings).value.cache.frames) ==>
              ConsumeAll(r, readings).value.cache.frames[Accepted(r.latest, readings)[i].0]
              == Accepted(r.latest, readings)[i].1
  {
    var acc := Accepted(r.latest, readings);
    var ts := r.cache.timestamps;
    var all := ts + Times(acc);
    forall i, j | 0 <= i < j < |all| ensures all[i] != all[j] {
      if j < |ts| {
      } else if i < |ts| {
        assert all[i] == ts[i] <= r.latest;
        assert all[j] == acc[j - |ts|].0;
      } else {
        assert all[i] == acc[i - |ts|].0 && all[j] == acc[j - |ts|].0;
      }
    }
    ConsumeAllStoresAccepted(r, readings);
    StoreAllWindow(r.cache, acc);
    StoreAllFrames(r.cache, acc);
  }

  /** However long the reader runs, it never fails, its cache never
      exceeds 200 frames, and the cached timestamps stay at least half a
      second apart. */
  lemma {:induction false} ConsumeAllThrottled<F>(r: Reader<F>, readings: seq<(real, F)>)
    requires Throttled(r)
    ensures ConsumeAll(r, readings).Success?
    ensures Throttled(ConsumeAll(r, readings).value)
    ensures |ConsumeAll(r, readings).value.cache.timestamps| <= Capacity
    decreases |readings|
  {
    if readings != [] {
      ConsumeKeepsThrottled(r, readings[0].0, readings[0].1);
      ConsumeAllThrottled(Consume(r, readings[0].0, readings[0].1).value, readings[1..]);
    }
  }

  /** Every cached timestamp is at least `MinGap` past `lo`, and the
      latest-frame time has not gone below `lo`. */
  ghost predicate CachedAfter<F>(r: Reader<F>, lo: real) {
    && r.latest >= lo
    && forall i :: 0 <= i < |r.cache.timestamps| ==> r.cache.timestamps[i] >= lo + MinGap
  }

  /** The latest-frame time never moves backwards, so a lower bound on the
      cached timestamps survives every consumer step. */
  lemma ConsumeKeepsCachedAfter<F>(r: Reader<F>, t: real, frame: F, lo: real)
    requires Throttled(r)
    requires CachedAfter(r, lo)
    ensures Consume(r, t, frame).Success?
    ensures CachedAfter(Consume(r, t, frame).value, lo)
  {
    var ts := r.cache.timestamps;
    if t - r.latest >= MinGap {
      assert t !in ts by {
        forall i | 0 <= i < |ts| ensures ts[i] != t {
          assert ts[i] <= r.latest;
        }
      }
      StoreFresh(r.cache, t, frame);
      BoundOfWindow(ts, t, lo + MinGap);
    }
  }

  /** The window over a sequence whose elements all reach a bound keeps
      the bound. */
  lemma BoundOfWindow(ts: seq<real>, t: real, b: real)
    requires forall i :: 0 <= i < |ts| ==> ts[i] >= b
    requires t >= b
    ensures forall i :: 0 <= i < |Window(ts + [t])| ==> Window(ts + [t])[i] >= b
  {
    var s := ts + [t];
    assert forall i :: 0 <= i < |s| ==> s[i] >= b;
    var w := Window(s);
    forall i | 0 <= i < |w| ensures w[i] >= b {
      assert w[i] == s[|s| - |w| + i];
    }
  }

  lemma {:induction false} ConsumeAllCachedAfter<F>(r: Reader<F>, readings: seq<(real, F)>, lo: real)
    requires Throttled(r)
    requires CachedAfter(r, lo)
    ensures ConsumeAll(r, readings).Success?
    ensures CachedAfter(ConsumeAll(r, readings).value, lo)
    decreases |readings|
  {
    if readings != [] {
      ConsumeKeepsThrottled(r, readings[0].0, readings[0].1);
      ConsumeKeepsCachedAfter(r, readings[0].0, readings[0].1, lo);
      ConsumeAllCachedAfter(Consume(r, readings[0].0, readings[0].1).value, readings[1..], lo);
    }
  }

  /** A reader started fresh never fails, keeps the throttle invariant,
      and caches no frame timed before half a second past time zero. */
  lemma FromStart<F>(readings: seq<(real, F)>)
    ensures ConsumeAll(NewReader<F>(), readings).Success?
    ensures Throttled(ConsumeAll(NewReader<F>(), readings).value)
    ensures forall t :: t in ConsumeAll(NewReader<F>(), readings).value.cache.timestamps ==> t >= MinGap
  {
    ConsumeAllThrottled(NewReader<F>(), readings);
    ConsumeAllCachedAfter(NewReader<F>(), readings, 0.0);
  }
}
