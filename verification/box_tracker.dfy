/**
  One tracked object (`KalmanBoxTracker`): its identity, creation-time score
  and class, the estimator state, and the lifecycle counters that `predict`
  and `update` maintain.
 */
module BoxTracker {
  import opened Wrappers
  import opened Geometry
  import opened Motion

  /**
    The numeric operations of the estimator that are not modelled, with the
    covariance left as the type parameter C: its initial value, its
    propagation by `predict`, the measurement correction of `update`, and the
    conversion of a mean to corner form (which takes a square root).
   */
  datatype Filter<!C> = Filter(
    initCov: C,
    propagate: C -> C,
    correct: (Mean, C, Z) -> (Mean, C),
    toBox: Mean -> Box)

  datatype Track<C> = Track(
    id: nat,
    mean: Mean,
    cov: C,
    age: nat,
    timeSinceUpdate: nat,
    hits: nat,
    hitStreak: nat,
    conf: real,
    cls: int)

  /**
    The counter invariant every track keeps: the streak is part of the hits,
    the hits and the time since the last update are bounded by the age, and a
    track missed in two or more consecutive predictions has no streak.
   */
  predicate Lifecycle<C>(t: Track<C>) {
    && t.hitStreak <= t.hits <= t.age
    && t.timeSinceUpdate <= t.age
    && (t.timeSinceUpdate >= 2 ==> t.hitStreak == 0)
  }

  /** A new track seeded from a detection box, with the given identity. */
  function Create<C>(box: Box, conf: real, cls: int, id: nat, flt: Filter<C>): (t: Track<C>)
    requires box.y2 != box.y1
    ensures t.id == id && t.conf == conf && t.cls == cls
    ensures Observed(t.mean) == ToZ(box) && t.mean.vx == t.mean.vy == t.mean.vs == 0.0
    ensures t.age == t.timeSinceUpdate == t.hits == t.hitStreak == 0
    ensures Lifecycle(t)
  {
    Track(id, InitialMean(ToZ(box)), flt.initCov, 0, 0, 0, 0, conf, cls)
  }

  /**
    One prediction: the guarded constant-velocity step of the mean, one more
    frame of age and of time since update, and the streak dropped when the
    previous prediction already went without an update.
   */
  function Predict<C>(t: Track<C>, flt: Filter<C>): (p: Track<C>)
    ensures p.id == t.id && p.conf == t.conf && p.cls == t.cls
    ensures p.mean == PredictMean(t.mean) && p.cov == flt.propagate(t.cov)
    ensures p.age == t.age + 1 && p.timeSinceUpdate == t.timeSinceUpdate + 1
    ensures p.hits == t.hits
    ensures t.timeSinceUpdate > 0 ==> p.hitStreak == 0
    ensures t.timeSinceUpdate == 0 ==> p.hitStreak == t.hitStreak
    ensures Lifecycle(t) ==> Lifecycle(p) && p.hits < p.age
  {
    var streak := if t.timeSinceUpdate > 0 then 0 else t.hitStreak;
    t.(mean := PredictMean(t.mean), cov := flt.propagate(t.cov),
       age := t.age + 1, timeSinceUpdate := t.timeSinceUpdate + 1, hitStreak := streak)
  }

  /**
    One update with a matched detection box: the estimator is corrected, the
    track counts as just seen, and the hit and streak counters grow by one.
    Identity, score and class stay as they were at creation.
   */
  function Update<C>(t: Track<C>, box: Box, flt: Filter<C>): (u: Track<C>)
    requires box.y2 != box.y1
    ensures u.id == t.id && u.conf == t.conf && u.cls == t.cls && u.age == t.age
    ensures (u.mean, u.cov) == flt.correct(t.mean, t.cov, ToZ(box))
    ensures u.timeSinceUpdate == 0 && u.hits == t.hits + 1 && u.hitStreak == t.hitStreak + 1
    ensures Lifecycle(t) && t.hits < t.age ==> Lifecycle(u)
  {
    var (m, c) := flt.correct(t.mean, t.cov, ToZ(box));
    t.(mean := m, cov := c, timeSinceUpdate := 0, hits := t.hits + 1, hitStreak := t.hitStreak + 1)
  }

  // ---------------------------------------------------------------------
  // A track's life as a sequence of frames

  /** Detections seen by one track, frame by frame: the matched box, or None. */
  predicate Observable(frames: seq<Option<Box>>) {
    forall k :: 0 <= k < |frames| && frames[k].Some? ==> frames[k].value.y2 != frames[k].value.y1
  }

  /** One frame of a track: a prediction, then an update when a box was matched. */
  function Frame<C>(t: Track<C>, o: Option<Box>, flt: Filter<C>): Track<C>
    requires o.Some? ==> o.value.y2 != o.value.y1
  {
    var p := Predict(t, flt);
    if o.Some? then Update(p, o.value, flt) else p
  }

  /** The track after the given frames. */
  function Run<C>(t: Track<C>, frames: seq<Option<Box>>, flt: Filter<C>): Track<C>
    requires Observable(frames)
  {
    if |frames| == 0 then t
    else Frame(Run(t, frames[..|frames| - 1], flt), frames[|frames| - 1], flt)
  }

  function MatchedCount(frames: seq<Option<Box>>): nat {
    if |frames| == 0 then 0
    else MatchedCount(frames[..|frames| - 1]) + (if frames[|frames| - 1].Some? then 1 else 0)
  }

  /** The number of matched frames at the end of the sequence. */
  function TrailingMatched(frames: seq<Option<Box>>): nat {
    if |frames| == 0 || frames[|frames| - 1].None? then 0
    else TrailingMatched(frames[..|frames| - 1]) + 1
  }

  /** The number of unmatched frames at the end of the sequence. */
  function TrailingMissed(frames: seq<Option<Box>>): nat {
    if |frames| == 0 || frames[|frames| - 1].Some? then 0
    else TrailingMissed(frames[..|frames| - 1]) + 1
  }

  /**
    The streak a track shows after the frames: its run of consecutive matches,
    which survives the first missed frame and is dropped at the second.
   */
  function ExpectedStreak(frames: seq<Option<Box>>): nat {
    if |frames| == 0 then 0
    else if frames[|frames| - 1].Some? then TrailingMatched(frames)
    else if TrailingMissed(frames) == 1 then TrailingMatched(frames[..|frames| - 1])
    else 0
  }

  /**
    For a freshly created track, after any sequence of frames: the age counts
    the frames, the hits the matched frames, the time since update the misses
    since the last match, and the streak follows ExpectedStreak.
   */
  lemma {:induction false} RunCounters<C>(t: Track<C>, frames: seq<Option<Box>>, flt: Filter<C>)
    requires t.age == t.timeSinceUpdate == t.hits == t.hitStreak == 0
    requires Observable(frames)
    ensures var u := Run(t, frames, flt);
      && u.age == |frames|
      && u.hits == MatchedCount(frames)
      && u.timeSinceUpdate == TrailingMissed(frames)
      && u.hitStreak == ExpectedStreak(frames)
  {
    if |frames| > 0 {
      var prefix := frames[..|frames| - 1];
      RunCounters(t, prefix, flt);
      var before := Run(t, prefix, flt);
      var p := Predict(before, flt);
      if |prefix| > 0 && prefix[|prefix| - 1].None? {
        // the previous frame was missed: the prediction drops the streak
        assert before.timeSinceUpdate > 0 && p.hitStreak == 0;
        assert TrailingMatched(prefix) == 0;
        if frames[|frames| - 1].None? {
          assert TrailingMissed(frames) >= 2;
        }
      } else {
        // the previous frame was matched, or there was none
        assert before.timeSinceUpdate == 0 && p.hitStreak == before.hitStreak;
        assert before.hitStreak == TrailingMatched(prefix);
      }
    }
  }
}
