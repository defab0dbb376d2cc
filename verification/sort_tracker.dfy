/**
  The multi-object tracker (`SortTracker`): it owns the live tracks, a frame
  counter and the identity counter, and advances them one frame at a time:
  predict every track, drop the degenerate ones, associate, update the
  matched tracks, create a track per unmatched detection, report, and prune.
 */
module Sort {
  import opened Wrappers
  import opened Geometry
  import opened Motion
  import opened BoxTracker
  import opened Association

  datatype Config = Config(maxAge: nat, minHits: nat, iouThreshold: real)

  datatype ConfigError = InvalidMaxAge(maxAge: int) | InvalidMinHits(minHits: int)

  /** The tracker state: parameters, frames seen, the next identity, the live tracks. */
  datatype Tracker<C> = Tracker(cfg: Config, frameCount: nat, nextId: nat, tracks: seq<Track<C>>)

  /** One detection of a frame: [x1, y1, x2, y2, score, class_id]. */
  datatype Detection = Detection(box: Box, score: real, classId: real)

  /** One reported track: [x1, y1, x2, y2, track_id, class_id, confidence]. */
  datatype Row = Row(box: Box, trackId: nat, cls: int, conf: real)

  datatype StepResult<C> = StepResult(tracker: Tracker<C>, report: seq<Row>)

  /**
    The parameter check of construction: both ages must be non-negative,
    otherwise the matching error is raised (the maximum age is checked first).
   */
  function Validate(maxAge: int, minHits: int, iouThreshold: real): (r: Result<Config, ConfigError>)
    ensures r.Success? <==> maxAge >= 0 && minHits >= 0
    ensures maxAge < 0 ==> r == Failure(InvalidMaxAge(maxAge))
    ensures maxAge >= 0 && minHits < 0 ==> r == Failure(InvalidMinHits(minHits))
    ensures r.Success? ==> r.value == Config(maxAge, minHits, iouThreshold)
  {
    if maxAge < 0 then Failure(InvalidMaxAge(maxAge))
    else if minHits < 0 then Failure(InvalidMinHits(minHits))
    else Success(Config(maxAge, minHits, iouThreshold))
  }

  /**
    Construction: the validated parameters, no tracks, no frames seen, and
    the identity counter starting from `firstId`, the value the class-wide
    counter holds.
   */
  function New<C>(maxAge: int, minHits: int, iouThreshold: real, firstId: nat): (r: Result<Tracker<C>, ConfigError>)
    ensures r.Success? <==> Validate(maxAge, minHits, iouThreshold).Success?
    ensures r.Failure? ==> r.error == Validate(maxAge, minHits, iouThreshold).error
    ensures r.Success? ==>
      && r.value.cfg == Validate(maxAge, minHits, iouThreshold).value
      && r.value.frameCount == 0 && r.value.nextId == firstId && r.value.tracks == []
      && Inv(r.value)
  {
    var v := Validate(maxAge, minHits, iouThreshold);
    if v.Failure? then Failure(v.error)
    else Success(Tracker(v.value, 0, firstId, []))
  }

  /**
    What holds of the tracker between frames: identities increase along the
    track list and stay below the identity counter, every track keeps the
    counter invariant, and none has gone unmatched longer than the maximum age.
   */
  predicate Inv<C>(tr: Tracker<C>) {
    && IdsIncreasing(tr.tracks)
    && (forall k :: 0 <= k < |tr.tracks| ==> tr.tracks[k].id < tr.nextId)
    && (forall k :: 0 <= k < |tr.tracks| ==> Lifecycle(tr.tracks[k]))
    && (forall k :: 0 <= k < |tr.tracks| ==> tr.tracks[k].timeSinceUpdate <= tr.cfg.maxAge)
  }

  /** Python's int() on a float: truncation toward zero. */
  function Truncate(x: real): (n: int)
    ensures 0.0 <= x ==> n as real <= x < n as real + 1.0
    ensures x < 0.0 ==> n as real - 1.0 < x <= n as real
  {
    if x >= 0.0 then x.Floor else -((-x).Floor)
  }

  // ---------------------------------------------------------------------
  // Sequences of tracks

  /** The tracks satisfying `keep`, in their original order. */
  function KeepWhere<C>(ts: seq<Track<C>>, keep: Track<C> -> bool): (r: seq<Track<C>>)
    ensures |r| <= |ts|
  {
    if |ts| == 0 then []
    else (if keep(ts[0]) then [ts[0]] else []) + KeepWhere(ts[1..], keep)
  }

  /** What `KeepWhere` keeps: exactly the tracks satisfying `keep`. */
  lemma {:induction false} KeepWhereMembers<C>(ts: seq<Track<C>>, keep: Track<C> -> bool)
    ensures forall k :: 0 <= k < |KeepWhere(ts, keep)| ==>
      keep(KeepWhere(ts, keep)[k]) && KeepWhere(ts, keep)[k] in ts
    ensures forall k :: 0 <= k < |ts| && keep(ts[k]) ==> ts[k] in KeepWhere(ts, keep)
  {
    if |ts| > 0 {
      var tail := ts[1..];
      KeepWhereMembers(tail, keep);
      var head := if keep(ts[0]) then [ts[0]] else [];
      var r := KeepWhere(ts, keep);
      assert r == head + KeepWhere(tail, keep);
      forall k | 0 <= k < |r|
        ensures keep(r[k]) && r[k] in ts
      {
        if k >= |head| {
          assert r[k] == KeepWhere(tail, keep)[k - |head|];
          assert r[k] in tail;
        }
      }
      forall k | 0 <= k < |ts| && keep(ts[k])
        ensures ts[k] in r
      {
        if k > 0 {
          assert ts[k] == tail[k - 1];
        }
      }
    }
  }

  /** The tracks whose prediction has only finite coordinates. */
  function Survivors<C>(ts: seq<Track<C>>): seq<Track<C>> {
    KeepWhere(ts, (t: Track<C>) => !Degenerate(t.mean))
  }

  /** The tracks not yet unmatched for longer than the maximum age. */
  function Prune<C>(ts: seq<Track<C>>, maxAge: nat): (kept: seq<Track<C>>)
    ensures forall k :: 0 <= k < |kept| ==> kept[k] in ts && kept[k].timeSinceUpdate <= maxAge
    ensures forall k :: 0 <= k < |ts| && ts[k].timeSinceUpdate <= maxAge ==> ts[k] in kept
  {
    var keep := (t: Track<C>) => t.timeSinceUpdate <= maxAge;
    KeepWhereMembers(ts, keep);
    KeepWhere(ts, keep)
  }

  /** Identities grow strictly along the sequence. */
  predicate IdsIncreasing<C>(ts: seq<Track<C>>) {
    forall k, l :: 0 <= k < l < |ts| ==> ts[k].id < ts[l].id
  }

  // ---------------------------------------------------------------------
  // Reporting

  /**
    A track is reported when it was matched (or created) in this frame and
    either its streak has reached `minHits` or the tracker is still within
    its first `minHits` frames.
   */
  predicate ShouldReport<C>(t: Track<C>, cfg: Config, frame: nat) {
    t.timeSinceUpdate < 1 && (t.hitStreak >= cfg.minHits || frame <= cfg.minHits)
  }

  /** The reported row of a track: its current box and its 1-based identity. */
  function MakeRow<C>(t: Track<C>, toBox: Mean -> Box): (row: Row)
    ensures row.trackId >= 1
  {
    Row(toBox(t.mean), t.id + 1, t.cls, t.conf)
  }

  /** The rows of the reported tracks, walking the tracks from last to first. */
  function ReportRows<C>(ts: seq<Track<C>>, cfg: Config, frame: nat, toBox: Mean -> Box): seq<Row> {
    if |ts| == 0 then []
    else
      var own := if ShouldReport(ts[0], cfg, frame) then [MakeRow(ts[0], toBox)] else [];
      ReportRows(ts[1..], cfg, frame, toBox) + own
  }

  /**
    The report-and-prune pass as the tracker performs it: one walk over the
    tracks in reverse, appending the row of each reported track and deleting
    in place each track unmatched for longer than the maximum age.
   */
  method ReportAndPrune<C>(ts: seq<Track<C>>, cfg: Config, frame: nat, toBox: Mean -> Box)
    returns (rows: seq<Row>, live: seq<Track<C>>)
    ensures rows == ReportRows(ts, cfg, frame, toBox)
    ensures live == Prune(ts, cfg.maxAge)
  {
    rows := [];
    live := ts;
    var i := |ts|;
    while i > 0
      invariant 0 <= i <= |ts|
      invariant rows == ReportRows(ts[i..], cfg, frame, toBox)
      invariant live == ts[..i] + Prune(ts[i..], cfg.maxAge)
    {
      var j := i - 1;
      var trk := live[j];
      ReportStep(ts, i, cfg, frame, toBox);
      PopStep(ts, i, cfg.maxAge, live);
      if ShouldReport(trk, cfg, frame) {
        rows := rows + [MakeRow(trk, toBox)];
      }
      if trk.timeSinceUpdate > cfg.maxAge {
        live := live[..j] + live[j + 1..];
      }
      i := j;
    }
    assert ts[0..] == ts && ts[..0] == [];
  }

  /** Taking one more track (from the back) into the report. */
  lemma ReportStep<C>(ts: seq<Track<C>>, i: nat, cfg: Config, frame: nat, toBox: Mean -> Box)
    requires 0 < i <= |ts|
    ensures var t := ts[i - 1];
      ReportRows(ts[i - 1..], cfg, frame, toBox)
        == ReportRows(ts[i..], cfg, frame, toBox) + (if ShouldReport(t, cfg, frame) then [MakeRow(t, toBox)] else [])
  {
    assert ts[i - 1..][1..] == ts[i..];
  }

  /**
    The walk's list before and after deleting (or keeping) the track at
    `i - 1`: either way it is the untouched prefix followed by the pruned
    suffix one position earlier.
   */
  lemma PopStep<C>(ts: seq<Track<C>>, i: nat, maxAge: nat, live: seq<Track<C>>)
    requires 0 < i <= |ts|
    requires live == ts[..i] + Prune(ts[i..], maxAge)
    ensures live[i - 1] == ts[i - 1]
    ensures ts[i - 1].timeSinceUpdate > maxAge ==>
      live[..i - 1] + live[i..] == ts[..i - 1] + Prune(ts[i - 1..], maxAge)
    ensures ts[i - 1].timeSinceUpdate <= maxAge ==>
      live == ts[..i - 1] + Prune(ts[i - 1..], maxAge)
  {
    var t, kept := ts[i - 1], Prune(ts[i..], maxAge);
    PruneCons(ts[i - 1..], maxAge);
    assert ts[i - 1..][1..] == ts[i..];
    assert live[..i - 1] == ts[..i - 1];
    assert live[i..] == kept;
    assert ts[..i] == ts[..i - 1] + [t];
  }

  /** Pruning a non-empty sequence decides its first track and prunes the rest. */
  lemma PruneCons<C>(ts: seq<Track<C>>, maxAge: nat)
    requires |ts| > 0
    ensures Prune(ts, maxAge) == (if ts[0].timeSinceUpdate <= maxAge then [ts[0]] else []) + Prune(ts[1..], maxAge)
  {
  }

  // ---------------------------------------------------------------------
  // Applying the association

  predicate ValidDetections(dets: seq<Detection>) {
    forall k :: 0 <= k < |dets| ==> Valid(dets[k].box)
  }

  function DetectionBoxes(dets: seq<Detection>): (bs: seq<Box>)
    ensures |bs| == |dets| && forall k :: 0 <= k < |dets| ==> bs[k] == dets[k].box
  {
    seq(|dets|, k requires 0 <= k < |dets| => dets[k].box)
  }

  /** The corner-form box each track predicts. */
  function PredictedBoxes<C>(ts: seq<Track<C>>, flt: Filter<C>): (bs: seq<Box>)
    ensures |bs| == |ts| && forall k :: 0 <= k < |ts| ==> bs[k] == flt.toBox(ts[k].mean)
  {
    seq(|ts|, k requires 0 <= k < |ts| => flt.toBox(ts[k].mean))
  }

  /**
    Updates each matched track with its detection, one match after another.
    Since no track occurs in two matches, each matched track is updated once
    with its own detection and every other track is left as it was.
   */
  function ApplyMatches<C>(ts: seq<Track<C>>, ms: seq<Match>, dets: seq<Detection>, flt: Filter<C>): (r: seq<Track<C>>)
    requires ValidDetections(dets)
    requires forall k :: 0 <= k < |ms| ==> ms[k].det < |dets| && ms[k].trk < |ts|
    requires AtMostOnce(Trks(ms))
    ensures |r| == |ts|
    ensures forall k :: 0 <= k < |ms| ==>
      r[ms[k].trk] == Update(ts[ms[k].trk], dets[ms[k].det].box, flt)
    ensures forall j :: 0 <= j < |ts| && j !in Trks(ms) ==> r[j] == ts[j]
    decreases |ms|
  {
    if |ms| == 0 then ts
    else
      var p := ms[0];
      FirstMatchDistinct(ms);
      var u := ts[p.trk := Update(ts[p.trk], dets[p.det].box, flt)];
      var r := ApplyMatches(u, ms[1..], dets, flt);
      ApplyStep(ts, ms, dets, flt, r);
      r
  }

  /**
    One step of ApplyMatches: if r is the result of applying the later matches
    to the tracks with the first match applied, r has the effect of all of them.
   */
  lemma ApplyStep<C>(ts: seq<Track<C>>, ms: seq<Match>, dets: seq<Detection>, flt: Filter<C>, r: seq<Track<C>>)
    requires ValidDetections(dets)
    requires forall k :: 0 <= k < |ms| ==> ms[k].det < |dets| && ms[k].trk < |ts|
    requires |ms| > 0 && AtMostOnce(Trks(ms))
    requires var p := ms[0];
      var u := ts[p.trk := Update(ts[p.trk], dets[p.det].box, flt)];
      && |r| == |u|
      && (forall k :: 0 <= k < |ms[1..]| ==>
            r[ms[1..][k].trk] == Update(u[ms[1..][k].trk], dets[ms[1..][k].det].box, flt))
      && (forall j :: 0 <= j < |u| && j !in Trks(ms[1..]) ==> r[j] == u[j])
    ensures |r| == |ts|
    ensures forall k :: 0 <= k < |ms| ==>
      r[ms[k].trk] == Update(ts[ms[k].trk], dets[ms[k].det].box, flt)
    ensures forall j :: 0 <= j < |ts| && j !in Trks(ms) ==> r[j] == ts[j]
  {
    var p, rest := ms[0], ms[1..];
    var u := ts[p.trk := Update(ts[p.trk], dets[p.det].box, flt)];
    FirstMatchDistinct(ms);
    forall k | 0 <= k < |ms|
      ensures r[ms[k].trk] == Update(ts[ms[k].trk], dets[ms[k].det].box, flt)
    {
      if k > 0 {
        assert ms[k] == rest[k - 1];
      } else {
        assert p.trk !in Trks(rest);
      }
    }
    forall j | 0 <= j < |ts| && j !in Trks(ms)
      ensures r[j] == ts[j]
    {
      assert j !in Trks(rest) && j != p.trk;
    }
  }

  /** The first match's track occurs in no later match, and the later matches pair at most once. */
  lemma FirstMatchDistinct(ms: seq<Match>)
    requires |ms| > 0 && AtMostOnce(Trks(ms))
    ensures AtMostOnce(Trks(ms[1..]))
    ensures Trks(ms) == [ms[0].trk] + Trks(ms[1..])
    ensures ms[0].trk !in Trks(ms[1..])
    ensures forall k :: 0 < k < |ms| ==> ms[k].trk != ms[0].trk
  {
    assert Trks(ms) == [ms[0].trk] + Trks(ms[1..]);
    AtMostOnceOfSmaller(Trks(ms[1..]), Trks(ms));
    forall k | 0 < k < |ms|
      ensures ms[k].trk != ms[0].trk
    {
      AtMostOnceDistinct(Trks(ms), 0, k);
    }
  }

  /**
    One new track per unmatched detection, in the order of the unmatched
    list, taking consecutive identities from `nextId`, the detection's score
    as confidence and its truncated class.
   */
  function Spawn<C>(dets: seq<Detection>, unmatched: seq<nat>, nextId: nat, flt: Filter<C>): (r: seq<Track<C>>)
    requires ValidDetections(dets)
    requires forall k :: 0 <= k < |unmatched| ==> unmatched[k] < |dets|
    ensures |r| == |unmatched|
    ensures forall k :: 0 <= k < |r| ==>
      var d := dets[unmatched[k]];
      && r[k] == Create(d.box, d.score, Truncate(d.classId), nextId + k, flt)
      && r[k].id == nextId + k && r[k].conf == d.score
      && r[k].timeSinceUpdate == r[k].hits == r[k].hitStreak == r[k].age == 0
  {
    seq(|unmatched|, k requires 0 <= k < |unmatched| =>
      var d := dets[unmatched[k]];
      Create(d.box, d.score, Truncate(d.classId), nextId + k, flt))
  }

  // ---------------------------------------------------------------------
  // One frame

  function Predicted<C>(st: Tracker<C>, flt: Filter<C>): (ps: seq<Track<C>>)
    ensures |ps| == |st.tracks| && forall k :: 0 <= k < |ps| ==> ps[k] == Predict(st.tracks[k], flt)
  {
    seq(|st.tracks|, k requires 0 <= k < |st.tracks| => Predict(st.tracks[k], flt))
  }

  /** The predicted tracks that take part in the association. */
  function Live<C>(st: Tracker<C>, flt: Filter<C>): seq<Track<C>> {
    Survivors(Predicted(st, flt))
  }

  /** The IoU of every detection (rows) against every live prediction (columns). */
  function FrameIou<C>(st: Tracker<C>, flt: Filter<C>, dets: seq<Detection>): (a: seq<seq<real>>)
    ensures IsMatrix(a, |dets|, |Live(st, flt)|)
  {
    IouBatch(DetectionBoxes(dets), PredictedBoxes(Live(st, flt), flt))
  }

  /** The association of this frame, given the solver's pairing for its matrix. */
  function FrameAssignment<C>(st: Tracker<C>, flt: Filter<C>, dets: seq<Detection>, solver: seq<Match>): Assignment
    requires ValidPairing(solver, |dets|, |Live(st, flt)|)
  {
    Associate(FrameIou(st, flt, dets), |Live(st, flt)|, st.cfg.iouThreshold, solver)
  }

  /** The live tracks after the updates, followed by the tracks created this frame. */
  function Candidates<C>(st: Tracker<C>, flt: Filter<C>, dets: seq<Detection>, solver: seq<Match>): seq<Track<C>>
    requires ValidDetections(dets)
    requires ValidPairing(solver, |dets|, |Live(st, flt)|)
  {
    var a := FrameAssignment(st, flt, dets, solver);
    RangeBounds(a, |dets|, |Live(st, flt)|);
    ApplyMatches(Live(st, flt), a.matches, dets, flt) + Spawn(dets, a.unmatchedDets, st.nextId, flt)
  }

  /** Every index of the unmatched detections is a detection index. */
  lemma RangeBounds(a: Assignment, n: nat, m: nat)
    requires multiset(Dets(a.matches)) + multiset(a.unmatchedDets) == multiset(Range(n))
    ensures forall k :: 0 <= k < |a.unmatchedDets| ==> a.unmatchedDets[k] < n
  {
    forall k | 0 <= k < |a.unmatchedDets|
      ensures a.unmatchedDets[k] < n
    {
      var v := a.unmatchedDets[k];
      assert v in multiset(Range(n));
      var j :| 0 <= j < n && Range(n)[j] == v;
    }
  }

  /**
    One frame: `frame_count` grows by one, the identity counter by the number
    of tracks created, the report lists the reported candidates, and no
    surviving track has gone unmatched for longer than the maximum age.
   */
  function Step<C>(st: Tracker<C>, flt: Filter<C>, dets: seq<Detection>, solver: seq<Match>): (r: StepResult<C>)
    requires ValidDetections(dets)
    requires ValidPairing(solver, |dets|, |Live(st, flt)|)
    ensures r.tracker.cfg == st.cfg
    ensures r.tracker.frameCount == st.frameCount + 1
    ensures r.tracker.nextId == st.nextId + |FrameAssignment(st, flt, dets, solver).unmatchedDets|
  {
    var frame := st.frameCount + 1;
    var all := Candidates(st, flt, dets, solver);
    var a := FrameAssignment(st, flt, dets, solver);
    StepResult(
      Tracker(st.cfg, frame, st.nextId + |a.unmatchedDets|, Prune(all, st.cfg.maxAge)),
      ReportRows(all, st.cfg, frame, flt.toBox))
  }

  // ---------------------------------------------------------------------
  // Lemmas

  /** Keeping a subsequence keeps identities increasing. */
  lemma {:induction false} KeepWhereIds<C>(ts: seq<Track<C>>, keep: Track<C> -> bool)
    requires IdsIncreasing(ts)
    ensures IdsIncreasing(KeepWhere(ts, keep))
  {
    if |ts| > 0 {
      KeepWhereIds(ts[1..], keep);
      KeepWhereMembers(ts[1..], keep);
      var rest := KeepWhere(ts[1..], keep);
      forall l | 0 <= l < |rest|
        ensures ts[0].id < rest[l].id
      {
        var k :| 0 <= k < |ts[1..]| && ts[1..][k] == rest[l];
      }
    }
  }

  /** Every row of the report is the row of a track that should be reported: row `j` comes from track `k`. */
  lemma {:induction false} ReportRowOrigin<C>(ts: seq<Track<C>>, cfg: Config, frame: nat, toBox: Mean -> Box, j: nat)
    returns (k: nat)
    requires j < |ReportRows(ts, cfg, frame, toBox)|
    ensures k < |ts| && ShouldReport(ts[k], cfg, frame)
    ensures ReportRows(ts, cfg, frame, toBox)[j] == MakeRow(ts[k], toBox)
  {
    assert |ts| > 0;
    var rest := ReportRows(ts[1..], cfg, frame, toBox);
    var own := if ShouldReport(ts[0], cfg, frame) then [MakeRow(ts[0], toBox)] else [];
    assert ReportRows(ts, cfg, frame, toBox) == rest + own;
    if j < |rest| {
      var k' := ReportRowOrigin(ts[1..], cfg, frame, toBox, j);
      k := k' + 1;
      assert ts[1..][k'] == ts[k];
    } else {
      k := 0;
    }
  }

  /** Every track that should be reported has its row in the report: track `k` yields row `j`. */
  lemma {:induction false} ReportRowOf<C>(ts: seq<Track<C>>, cfg: Config, frame: nat, toBox: Mean -> Box, k: nat)
    returns (j: nat)
    requires k < |ts| && ShouldReport(ts[k], cfg, frame)
    ensures j < |ReportRows(ts, cfg, frame, toBox)|
    ensures ReportRows(ts, cfg, frame, toBox)[j] == MakeRow(ts[k], toBox)
  {
    var rest := ReportRows(ts[1..], cfg, frame, toBox);
    var own := if ShouldReport(ts[0], cfg, frame) then [MakeRow(ts[0], toBox)] else [];
    assert ReportRows(ts, cfg, frame, toBox) == rest + own;
    if k == 0 {
      j := |rest|;
    } else {
      assert ts[1..][k - 1] == ts[k];
      j := ReportRowOf(ts[1..], cfg, frame, toBox, k - 1);
    }
  }

  /** Every row of the report of the later tracks carries a larger identity than the first track's. */
  lemma RestRowsAbove<C>(ts: seq<Track<C>>, cfg: Config, frame: nat, toBox: Mean -> Box)
    requires |ts| > 0 && IdsIncreasing(ts)
    ensures forall j :: 0 <= j < |ReportRows(ts[1..], cfg, frame, toBox)| ==>
      ReportRows(ts[1..], cfg, frame, toBox)[j].trackId > ts[0].id + 1
  {
    var rest := ReportRows(ts[1..], cfg, frame, toBox);
    forall j | 0 <= j < |rest|
      ensures rest[j].trackId > ts[0].id + 1
    {
      var k := ReportRowOrigin(ts[1..], cfg, frame, toBox, j);
      assert ts[1..][k] == ts[k + 1];
    }
  }

  /** Walking the tracks in reverse, the report lists identities in decreasing order. */
  lemma {:induction false} ReportRowsDescending<C>(ts: seq<Track<C>>, cfg: Config, frame: nat, toBox: Mean -> Box)
    requires IdsIncreasing(ts)
    ensures forall j, l :: 0 <= j < l < |ReportRows(ts, cfg, frame, toBox)| ==>
      ReportRows(ts, cfg, frame, toBox)[j].trackId > ReportRows(ts, cfg, frame, toBox)[l].trackId
  {
    if |ts| > 0 {
      ReportRowsDescending(ts[1..], cfg, frame, toBox);
      RestRowsAbove(ts, cfg, frame, toBox);
      var rest := ReportRows(ts[1..], cfg, frame, toBox);
      var own := if ShouldReport(ts[0], cfg, frame) then [MakeRow(ts[0], toBox)] else [];
      var rows := ReportRows(ts, cfg, frame, toBox);
      assert rows == rest + own;
      forall j, l | 0 <= j < l < |rows|
        ensures rows[j].trackId > rows[l].trackId
      {
        if l < |rest| {
          assert rows[j] == rest[j] && rows[l] == rest[l];
        } else {
          assert rows[j] == rest[j] && rows[l] == MakeRow(ts[0], toBox);
        }
      }
    }
  }

  /**
    With distinct identities, a track is reported exactly when it should be:
    some row carries its 1-based identity iff ShouldReport holds of it.
   */
  lemma ReportIff<C>(ts: seq<Track<C>>, cfg: Config, frame: nat, toBox: Mean -> Box)
    requires IdsIncreasing(ts)
    ensures var rows := ReportRows(ts, cfg, frame, toBox);
      forall k :: 0 <= k < |ts| ==>
        ((exists j :: 0 <= j < |rows| && rows[j].trackId == ts[k].id + 1) <==> ShouldReport(ts[k], cfg, frame))
  {
    var rows := ReportRows(ts, cfg, frame, toBox);
    forall k | 0 <= k < |ts|
      ensures (exists j :: 0 <= j < |rows| && rows[j].trackId == ts[k].id + 1) <==> ShouldReport(ts[k], cfg, frame)
    {
      if ShouldReport(ts[k], cfg, frame) {
        var j := ReportRowOf(ts, cfg, frame, toBox, k);
      }
      if j :| 0 <= j < |rows| && rows[j].trackId == ts[k].id + 1 {
        var k' := ReportRowOrigin(ts, cfg, frame, toBox, j);
        assert ts[k'].id == ts[k].id;
        assert k' == k;
      }
    }
  }

  /** Where a track after the updates comes from: its match, or no change. */
  lemma ApplyMatchesAt<C>(ts: seq<Track<C>>, ms: seq<Match>, dets: seq<Detection>, flt: Filter<C>, j: nat)
    requires ValidDetections(dets)
    requires forall k :: 0 <= k < |ms| ==> ms[k].det < |dets| && ms[k].trk < |ts|
    requires AtMostOnce(Trks(ms))
    requires j < |ts|
    ensures j in Trks(ms) ==>
      exists k :: 0 <= k < |ms| && ms[k].trk == j && ApplyMatches(ts, ms, dets, flt)[j] == Update(ts[j], dets[ms[k].det].box, flt)
    ensures j !in Trks(ms) ==> ApplyMatches(ts, ms, dets, flt)[j] == ts[j]
  {
    if j in Trks(ms) {
      var k :| 0 <= k < |ms| && Trks(ms)[k] == j;
    }
  }

  /** The predicted tracks of a tracker keeping its invariant. */
  lemma LiveFacts<C>(st: Tracker<C>, flt: Filter<C>)
    requires Inv(st)
    ensures IdsIncreasing(Live(st, flt))
    ensures forall k :: 0 <= k < |Live(st, flt)| ==>
      && Lifecycle(Live(st, flt)[k])
      && Live(st, flt)[k].hits < Live(st, flt)[k].age
      && Live(st, flt)[k].timeSinceUpdate >= 1
      && Live(st, flt)[k].id < st.nextId
  {
    var ps := Predicted(st, flt);
    var keep := (t: Track<C>) => !Degenerate(t.mean);
    var live := KeepWhere(ps, keep);
    assert Live(st, flt) == live;
    KeepWhereIds(ps, keep);
    KeepWhereMembers(ps, keep);
    forall k | 0 <= k < |live|
      ensures Lifecycle(live[k]) && live[k].hits < live[k].age
      ensures live[k].timeSinceUpdate >= 1 && live[k].id < st.nextId
    {
      assert live[k] in ps;
      var i :| 0 <= i < |ps| && ps[i] == live[k];
    }
  }

  /** After the updates each live track keeps its identity and its counter invariant. */
  lemma UpdatedFacts<C>(ts: seq<Track<C>>, ms: seq<Match>, dets: seq<Detection>, flt: Filter<C>)
    requires ValidDetections(dets)
    requires forall k :: 0 <= k < |ms| ==> ms[k].det < |dets| && ms[k].trk < |ts|
    requires AtMostOnce(Trks(ms))
    requires forall k :: 0 <= k < |ts| ==> Lifecycle(ts[k]) && ts[k].hits < ts[k].age
    ensures forall j :: 0 <= j < |ts| ==>
      var u := ApplyMatches(ts, ms, dets, flt)[j];
      u.id == ts[j].id && u.conf == ts[j].conf && u.cls == ts[j].cls && Lifecycle(u)
  {
    forall j | 0 <= j < |ts|
      ensures var u := ApplyMatches(ts, ms, dets, flt)[j];
        u.id == ts[j].id && u.conf == ts[j].conf && u.cls == ts[j].cls && Lifecycle(u)
    {
      ApplyMatchesAt(ts, ms, dets, flt, j);
    }
  }

  /** Live tracks followed by fresh identities at or above the counter keep identities increasing. */
  lemma AppendIds<C>(updated: seq<Track<C>>, spawned: seq<Track<C>>, nextId: nat)
    requires IdsIncreasing(updated)
    requires forall k :: 0 <= k < |updated| ==> updated[k].id < nextId
    requires forall k :: 0 <= k < |spawned| ==> spawned[k].id == nextId + k
    ensures IdsIncreasing(updated + spawned)
  {
  }

  /**
    Updated live tracks followed by tracks spawned from the identity counter
    keep identities increasing and below the advanced counter, and keep the
    counter invariant.
   */
  lemma CandidatesOf<C>(live: seq<Track<C>>, ms: seq<Match>, unmatched: seq<nat>, dets: seq<Detection>,
                        nextId: nat, flt: Filter<C>)
    requires ValidDetections(dets)
    requires forall k :: 0 <= k < |ms| ==> ms[k].det < |dets| && ms[k].trk < |live|
    requires AtMostOnce(Trks(ms))
    requires forall k :: 0 <= k < |unmatched| ==> unmatched[k] < |dets|
    requires IdsIncreasing(live)
    requires forall k :: 0 <= k < |live| ==> Lifecycle(live[k]) && live[k].hits < live[k].age && live[k].id < nextId
    ensures var all := ApplyMatches(live, ms, dets, flt) + Spawn(dets, unmatched, nextId, flt);
      && IdsIncreasing(all)
      && (forall k :: 0 <= k < |all| ==> all[k].id < nextId + |unmatched| && Lifecycle(all[k]))
  {
    var updated := ApplyMatches(live, ms, dets, flt);
    var spawned := Spawn(dets, unmatched, nextId, flt);
    UpdatedFacts(live, ms, dets, flt);
    assert IdsIncreasing(updated) by {
      assert forall j :: 0 <= j < |updated| ==> updated[j].id == live[j].id;
    }
    AppendIds(updated, spawned, nextId);
  }

  /** The candidates of a frame keep the invariant, apart from the age bound. */
  lemma CandidatesFacts<C>(st: Tracker<C>, flt: Filter<C>, dets: seq<Detection>, solver: seq<Match>)
    requires Inv(st)
    requires ValidDetections(dets)
    requires ValidPairing(solver, |dets|, |Live(st, flt)|)
    ensures var all := Candidates(st, flt, dets, solver);
      var nextId := st.nextId + |FrameAssignment(st, flt, dets, solver).unmatchedDets|;
      && IdsIncreasing(all)
      && (forall k :: 0 <= k < |all| ==> all[k].id < nextId && Lifecycle(all[k]))
  {
    var live := Live(st, flt);
    var a := FrameAssignment(st, flt, dets, solver);
    LiveFacts(st, flt);
    RangeBounds(a, |dets|, |live|);
    CandidatesOf(live, a.matches, a.unmatchedDets, dets, st.nextId, flt);
  }

  /**
    Which candidates were matched this frame: a live track has just been
    updated exactly when the association matched it, and after the live
    tracks come the created ones, with consecutive identities from the
    counter, each counting as updated in this frame.
   */
  lemma StepMatched<C>(st: Tracker<C>, flt: Filter<C>, dets: seq<Detection>, solver: seq<Match>)
    requires Inv(st)
    requires ValidDetections(dets)
    requires ValidPairing(solver, |dets|, |Live(st, flt)|)
    ensures var live, a, all := Live(st, flt), FrameAssignment(st, flt, dets, solver), Candidates(st, flt, dets, solver);
      && |all| == |live| + |a.unmatchedDets|
      && (forall k :: 0 <= k < |live| ==>
           all[k].id == live[k].id && (all[k].timeSinceUpdate == 0 <==> k in Trks(a.matches)))
      && (forall k :: |live| <= k < |all| ==>
           all[k].id == st.nextId + (k - |live|) && all[k].timeSinceUpdate == 0)
  {
    var live := Live(st, flt);
    var a := FrameAssignment(st, flt, dets, solver);
    LiveFacts(st, flt);
    RangeBounds(a, |dets|, |live|);
    var updated := ApplyMatches(live, a.matches, dets, flt);
    var spawned := Spawn(dets, a.unmatchedDets, st.nextId, flt);
    assert Candidates(st, flt, dets, solver) == updated + spawned;
    forall k | 0 <= k < |live|
      ensures updated[k].id == live[k].id && (updated[k].timeSinceUpdate == 0 <==> k in Trks(a.matches))
    {
      ApplyMatchesAt(live, a.matches, dets, flt, k);
    }
  }

  /**
    During the first `minHits` frames every track created in the frame (the
    candidates whose identity is at least the old counter) is reported at
    once, whatever its streak.
   */
  lemma StepWarmUp<C>(st: Tracker<C>, flt: Filter<C>, dets: seq<Detection>, solver: seq<Match>)
    requires Inv(st)
    requires ValidDetections(dets)
    requires ValidPairing(solver, |dets|, |Live(st, flt)|)
    requires st.frameCount + 1 <= st.cfg.minHits
    ensures var all, rows := Candidates(st, flt, dets, solver), Step(st, flt, dets, solver).report;
      forall k :: 0 <= k < |all| && all[k].id >= st.nextId ==>
        exists j :: 0 <= j < |rows| && rows[j].trackId == all[k].id + 1
  {
    var all := Candidates(st, flt, dets, solver);
    CreatedMatched(st, flt, dets, solver);
    StepRows(st, flt, dets, solver);
    WarmUpRows(all, st.cfg, st.frameCount + 1, flt.toBox, st.nextId);
  }

  /** A candidate with a fresh identity was created in this frame, so counts as updated. */
  lemma CreatedMatched<C>(st: Tracker<C>, flt: Filter<C>, dets: seq<Detection>, solver: seq<Match>)
    requires Inv(st)
    requires ValidDetections(dets)
    requires ValidPairing(solver, |dets|, |Live(st, flt)|)
    ensures var all := Candidates(st, flt, dets, solver);
      forall k :: 0 <= k < |all| && all[k].id >= st.nextId ==> all[k].timeSinceUpdate == 0
  {
    LiveFacts(st, flt);
    StepMatched(st, flt, dets, solver);
  }

  /** Within the first `minHits` frames, a track matched in the frame is reported. */
  lemma WarmUpRows<C>(ts: seq<Track<C>>, cfg: Config, frame: nat, toBox: Mean -> Box, firstNew: nat)
    requires frame <= cfg.minHits
    requires forall k :: 0 <= k < |ts| && ts[k].id >= firstNew ==> ts[k].timeSinceUpdate == 0
    ensures forall k :: 0 <= k < |ts| && ts[k].id >= firstNew ==>
      exists j :: 0 <= j < |ReportRows(ts, cfg, frame, toBox)| && ReportRows(ts, cfg, frame, toBox)[j].trackId == ts[k].id + 1
  {
    var rows := ReportRows(ts, cfg, frame, toBox);
    forall k | 0 <= k < |ts| && ts[k].id >= firstNew
      ensures exists j :: 0 <= j < |rows| && rows[j].trackId == ts[k].id + 1
    {
      var j := ReportRowOf(ts, cfg, frame, toBox, k);
    }
  }

  /** A frame preserves the tracker invariant. */
  lemma StepPreservesInv<C>(st: Tracker<C>, flt: Filter<C>, dets: seq<Detection>, solver: seq<Match>)
    requires Inv(st)
    requires ValidDetections(dets)
    requires ValidPairing(solver, |dets|, |Live(st, flt)|)
    ensures Inv(Step(st, flt, dets, solver).tracker)
  {
    var all := Candidates(st, flt, dets, solver);
    var nextId := st.nextId + |FrameAssignment(st, flt, dets, solver).unmatchedDets|;
    StepTracker(st, flt, dets, solver);
    CandidatesFacts(st, flt, dets, solver);
    PruneKeepsInv(Tracker(st.cfg, st.frameCount + 1, nextId, all));
  }

  /** Pruning a track list that meets the invariant except for the age bound establishes it. */
  lemma PruneKeepsInv<C>(tr: Tracker<C>)
    requires IdsIncreasing(tr.tracks)
    requires forall k :: 0 <= k < |tr.tracks| ==> tr.tracks[k].id < tr.nextId && Lifecycle(tr.tracks[k])
    ensures Inv(tr.(tracks := Prune(tr.tracks, tr.cfg.maxAge)))
  {
    var all := tr.tracks;
    var keep := (t: Track<C>) => t.timeSinceUpdate <= tr.cfg.maxAge;
    var kept := KeepWhere(all, keep);
    assert Prune(all, tr.cfg.maxAge) == kept;
    KeepWhereIds(all, keep);
    KeepWhereMembers(all, keep);
    forall k | 0 <= k < |kept|
      ensures kept[k].id < tr.nextId && Lifecycle(kept[k]) && kept[k].timeSinceUpdate <= tr.cfg.maxAge
    {
      assert kept[k] in all;
      var i :| 0 <= i < |all| && all[i] == kept[k];
    }
  }

  /** The tracker after a frame: the candidates that survive pruning, and the advanced counters. */
  lemma StepTracker<C>(st: Tracker<C>, flt: Filter<C>, dets: seq<Detection>, solver: seq<Match>)
    requires ValidDetections(dets)
    requires ValidPairing(solver, |dets|, |Live(st, flt)|)
    ensures Step(st, flt, dets, solver).tracker
      == Tracker(st.cfg, st.frameCount + 1, st.nextId + |FrameAssignment(st, flt, dets, solver).unmatchedDets|,
                 Prune(Candidates(st, flt, dets, solver), st.cfg.maxAge))
  {
  }

  /**
    The report over tracks with increasing identities: a track is reported,
    under its 1-based identity, exactly when it should be, and the rows come
    out in decreasing identity order.
   */
  lemma ReportFacts<C>(ts: seq<Track<C>>, cfg: Config, frame: nat, toBox: Mean -> Box)
    requires IdsIncreasing(ts)
    ensures var rows := ReportRows(ts, cfg, frame, toBox);
      && (forall k :: 0 <= k < |ts| ==>
           ((exists j :: 0 <= j < |rows| && rows[j].trackId == ts[k].id + 1) <==> ShouldReport(ts[k], cfg, frame)))
      && (forall j :: 0 <= j < |rows| ==> rows[j].trackId >= 1)
      && (forall j, l :: 0 <= j < l < |rows| ==> rows[j].trackId > rows[l].trackId)
  {
    var rows := ReportRows(ts, cfg, frame, toBox);
    ReportIff(ts, cfg, frame, toBox);
    ReportRowsDescending(ts, cfg, frame, toBox);
    forall j | 0 <= j < |rows|
      ensures rows[j].trackId >= 1
    {
      var k := ReportRowOrigin(ts, cfg, frame, toBox, j);
    }
  }

  /**
    The report of a frame: a track present after the updates and creations is
    reported, under its 1-based identity, exactly when it should be.
   */
  lemma StepReport<C>(st: Tracker<C>, flt: Filter<C>, dets: seq<Detection>, solver: seq<Match>)
    requires Inv(st)
    requires ValidDetections(dets)
    requires ValidPairing(solver, |dets|, |Live(st, flt)|)
    ensures var all, rows := Candidates(st, flt, dets, solver), Step(st, flt, dets, solver).report;
      forall k :: 0 <= k < |all| ==>
        ((exists j :: 0 <= j < |rows| && rows[j].trackId == all[k].id + 1)
          <==> ShouldReport(all[k], st.cfg, st.frameCount + 1))
  {
    var all := Candidates(st, flt, dets, solver);
    StepRows(st, flt, dets, solver);
    CandidatesFacts(st, flt, dets, solver);
    ReportFacts(all, st.cfg, st.frameCount + 1, flt.toBox);
  }

  /** The rows of a frame carry positive identities, in decreasing order. */
  lemma StepReportOrder<C>(st: Tracker<C>, flt: Filter<C>, dets: seq<Detection>, solver: seq<Match>)
    requires Inv(st)
    requires ValidDetections(dets)
    requires ValidPairing(solver, |dets|, |Live(st, flt)|)
    ensures var rows := Step(st, flt, dets, solver).report;
      && (forall j :: 0 <= j < |rows| ==> rows[j].trackId >= 1)
      && (forall j, l :: 0 <= j < l < |rows| ==> rows[j].trackId > rows[l].trackId)
  {
    var all := Candidates(st, flt, dets, solver);
    StepRows(st, flt, dets, solver);
    CandidatesFacts(st, flt, dets, solver);
    ReportFacts(all, st.cfg, st.frameCount + 1, flt.toBox);
  }

  /** The rows of a frame are those of the tracks present after updates and creations. */
  lemma StepRows<C>(st: Tracker<C>, flt: Filter<C>, dets: seq<Detection>, solver: seq<Match>)
    requires ValidDetections(dets)
    requires ValidPairing(solver, |dets|, |Live(st, flt)|)
    ensures Step(st, flt, dets, solver).report == ReportRows(Candidates(st, flt, dets, solver), st.cfg, st.frameCount + 1, flt.toBox)
  {
  }

  /** Pruning: the surviving tracks are exactly the candidates within the maximum age. */
  lemma StepPrunes<C>(st: Tracker<C>, flt: Filter<C>, dets: seq<Detection>, solver: seq<Match>)
    requires ValidDetections(dets)
    requires ValidPairing(solver, |dets|, |Live(st, flt)|)
    ensures var all, kept := Candidates(st, flt, dets, solver), Step(st, flt, dets, solver).tracker.tracks;
      && (forall k :: 0 <= k < |kept| ==> kept[k] in all && kept[k].timeSinceUpdate <= st.cfg.maxAge)
      && (forall k :: 0 <= k < |all| && all[k].timeSinceUpdate <= st.cfg.maxAge ==> all[k] in kept)
  {
    StepTracker(st, flt, dets, solver);
    KeepWhereMembers(Candidates(st, flt, dets, solver), (t: Track<C>) => t.timeSinceUpdate <= st.cfg.maxAge);
  }
}
