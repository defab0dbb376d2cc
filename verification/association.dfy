/**
  Matching detections to tracks (`associate_detections_to_trackers`).

  The IoU matrix has one row per detection and one column per track. When
  the above-threshold cells already pair rows and columns one to one, they
  are the matches; otherwise the assignment solver's pairing is used. Pairs
  whose IoU is below the threshold are then handed back as unmatched.
 */
module Association {
  import opened Geometry

  /** A detection index paired with a track index. */
  datatype Match = Match(det: nat, trk: nat)

  datatype Assignment = Assignment(
    matches: seq<Match>,
    unmatchedDets: seq<nat>,
    unmatchedTrks: seq<nat>)

  function Dets(ms: seq<Match>): (ds: seq<nat>)
    ensures |ds| == |ms| && forall k :: 0 <= k < |ms| ==> ds[k] == ms[k].det
  {
    seq(|ms|, k requires 0 <= k < |ms| => ms[k].det)
  }

  function Trks(ms: seq<Match>): (ts: seq<nat>)
    ensures |ts| == |ms| && forall k :: 0 <= k < |ms| ==> ts[k] == ms[k].trk
  {
    seq(|ms|, k requires 0 <= k < |ms| => ms[k].trk)
  }

  /** The indices 0, 1, ..., n - 1 in order. */
  function Range(n: nat): (r: seq<nat>)
    ensures |r| == n && forall k :: 0 <= k < n ==> r[k] == k
  {
    seq(n, k requires 0 <= k < n => k)
  }

  /** No index occurs twice. */
  predicate AtMostOnce(xs: seq<nat>) {
    forall v :: v in xs ==> multiset(xs)[v] <= 1
  }

  /**
    What the assignment solver guarantees of its pairing: every pair indexes
    the matrix, and no detection and no track is used twice.
   */
  predicate ValidPairing(ms: seq<Match>, n: nat, m: nat) {
    && (forall k :: 0 <= k < |ms| ==> ms[k].det < n && ms[k].trk < m)
    && AtMostOnce(Dets(ms))
    && AtMostOnce(Trks(ms))
  }

  // ---------------------------------------------------------------------
  // The thresholded matrix

  /** How many entries of a row exceed the threshold (a row sum of the 0/1 matrix). */
  function AboveCount(row: seq<real>, thr: real): nat {
    if |row| == 0 then 0
    else AboveCount(row[..|row| - 1], thr) + (if row[|row| - 1] > thr then 1 else 0)
  }

  /** How many rows exceed the threshold in column j (a column sum). */
  function ColumnCount(a: seq<seq<real>>, j: nat, thr: real): nat
    requires forall i :: 0 <= i < |a| ==> j < |a[i]|
  {
    if |a| == 0 then 0
    else ColumnCount(a[..|a| - 1], j, thr) + (if a[|a| - 1][j] > thr then 1 else 0)
  }

  function RowSums(a: seq<seq<real>>, thr: real): (sums: seq<nat>)
    ensures |sums| == |a|
  {
    seq(|a|, i requires 0 <= i < |a| => AboveCount(a[i], thr))
  }

  function ColumnSums(a: seq<seq<real>>, m: nat, thr: real): (sums: seq<nat>)
    requires IsMatrix(a, |a|, m)
    ensures |sums| == m
  {
    seq(m, j requires 0 <= j < m => ColumnCount(a, j, thr))
  }

  /** The largest element of a non-empty sequence. */
  function MaxOf(s: seq<nat>): (r: nat)
    requires |s| > 0
    ensures forall k :: 0 <= k < |s| ==> s[k] <= r
    ensures exists k :: 0 <= k < |s| && s[k] == r
  {
    if |s| == 1 then s[0]
    else
      var rest := MaxOf(s[..|s| - 1]);
      if s[|s| - 1] > rest then s[|s| - 1] else rest
  }

  /**
    The fast-path test: the largest row sum and the largest column sum of the
    thresholded matrix are both exactly 1.
   */
  predicate Unambiguous(a: seq<seq<real>>, m: nat, thr: real)
    requires IsMatrix(a, |a|, m) && |a| > 0 && m > 0
  {
    MaxOf(RowSums(a, thr)) == 1 && MaxOf(ColumnSums(a, m, thr)) == 1
  }

  /** The above-threshold cells of row i, left to right. */
  function RowCells(i: nat, row: seq<real>, thr: real): seq<Match> {
    if |row| == 0 then []
    else
      var tail := if row[|row| - 1] > thr then [Match(i, |row| - 1)] else [];
      RowCells(i, row[..|row| - 1], thr) + tail
  }

  /** The above-threshold cells of the matrix in row-major order. */
  function Cells(a: seq<seq<real>>, thr: real): seq<Match> {
    if |a| == 0 then []
    else Cells(a[..|a| - 1], thr) + RowCells(|a| - 1, a[|a| - 1], thr)
  }

  // ---------------------------------------------------------------------
  // The low-IoU filter

  /** Every pair indexes an entry of the matrix. */
  predicate InMatrix(a: seq<seq<real>>, ms: seq<Match>) {
    forall k :: 0 <= k < |ms| ==> ms[k].det < |a| && ms[k].trk < |a[ms[k].det]|
  }

  /** The pairs the filter keeps: those whose IoU is not below the threshold. */
  function Kept(a: seq<seq<real>>, ms: seq<Match>, thr: real): seq<Match>
    requires InMatrix(a, ms)
  {
    if |ms| == 0 then []
    else
      var p := ms[|ms| - 1];
      Kept(a, ms[..|ms| - 1], thr) + (if a[p.det][p.trk] < thr then [] else [p])
  }

  /** The pairs the filter rejects, in the order they were proposed. */
  function Rejected(a: seq<seq<real>>, ms: seq<Match>, thr: real): seq<Match>
    requires InMatrix(a, ms)
  {
    if |ms| == 0 then []
    else
      var p := ms[|ms| - 1];
      Rejected(a, ms[..|ms| - 1], thr) + (if a[p.det][p.trk] < thr then [p] else [])
  }

  /** The indices below n that do not occur in xs, in increasing order. */
  function Unlisted(n: nat, xs: seq<nat>): seq<nat> {
    if n == 0 then []
    else Unlisted(n - 1, xs) + (if n - 1 in xs then [] else [n - 1])
  }

  /** The pairing the association starts from, before the low-IoU filter. */
  function Proposed(a: seq<seq<real>>, m: nat, thr: real, solver: seq<Match>): seq<Match>
    requires IsMatrix(a, |a|, m)
  {
    if |a| > 0 && m > 0 then
      (if Unambiguous(a, m, thr) then Cells(a, thr) else solver)
    else []
  }

  /**
    The low-IoU filter over a valid proposed pairing: rejected pairs hand both
    their indices back to the unmatched lists, after the indices no pair used.
   */
  function Filtered(a: seq<seq<real>>, m: nat, thr: real, proposed: seq<Match>): (r: Assignment)
    requires IsMatrix(a, |a|, m)
    requires ValidPairing(proposed, |a|, m)
    ensures multiset(Dets(r.matches)) + multiset(r.unmatchedDets) == multiset(Range(|a|))
    ensures multiset(Trks(r.matches)) + multiset(r.unmatchedTrks) == multiset(Range(m))
    ensures ValidPairing(r.matches, |a|, m)
    ensures forall k :: 0 <= k < |r.matches| ==> a[r.matches[k].det][r.matches[k].trk] >= thr
  {
    assert InMatrix(a, proposed);
    var kept, rejected := Kept(a, proposed, thr), Rejected(a, proposed, thr);
    FilterSplits(a, proposed, thr);
    KeptAboveThreshold(a, proposed, thr);
    UnlistedComplement(|a|, Dets(proposed));
    UnlistedComplement(m, Trks(proposed));
    AtMostOnceOfSmaller(Dets(kept), Dets(proposed));
    AtMostOnceOfSmaller(Trks(kept), Trks(proposed));
    Assignment(
      kept,
      Unlisted(|a|, Dets(proposed)) + Dets(rejected),
      Unlisted(m, Trks(proposed)) + Trks(rejected))
  }

  /**
    Associates the |a| detections with the m tracks. The result partitions
    the detection indices between the matches and the unmatched detections,
    and the track indices between the matches and the unmatched tracks, each
    index exactly once; every kept match has IoU at least the threshold.
   */
  function Associate(a: seq<seq<real>>, m: nat, thr: real, solver: seq<Match>): (r: Assignment)
    requires IsMatrix(a, |a|, m)
    requires ValidPairing(solver, |a|, m)
    ensures multiset(Dets(r.matches)) + multiset(r.unmatchedDets) == multiset(Range(|a|))
    ensures multiset(Trks(r.matches)) + multiset(r.unmatchedTrks) == multiset(Range(m))
    ensures ValidPairing(r.matches, |a|, m)
    ensures forall k :: 0 <= k < |r.matches| ==> a[r.matches[k].det][r.matches[k].trk] >= thr
    ensures m == 0 ==> r.matches == [] && r.unmatchedDets == Range(|a|) && r.unmatchedTrks == []
  {
    if m == 0 then
      Assignment([], Range(|a|), [])
    else
      ProposedValid(a, m, thr, solver);
      Filtered(a, m, thr, Proposed(a, m, thr, solver))
  }

  // ---------------------------------------------------------------------
  // Lemmas about the pieces

  lemma ProjectAppend(x: seq<Match>, y: seq<Match>)
    ensures Dets(x + y) == Dets(x) + Dets(y)
    ensures Trks(x + y) == Trks(x) + Trks(y)
  {
  }

  lemma RangeCount(n: nat, v: nat)
    ensures multiset(Range(n))[v] == if v < n then 1 else 0
  {
    if n > 0 {
      assert Range(n) == Range(n - 1) + [n - 1];
      RangeCount(n - 1, v);
    }
  }

  /** How often v occurs in s. */
  function Occurrences(s: seq<nat>, v: nat): nat {
    if |s| == 0 then 0
    else Occurrences(s[..|s| - 1], v) + (if s[|s| - 1] == v then 1 else 0)
  }

  /** The multiset of a sequence counts occurrences. */
  lemma {:induction false} OccurrencesCount(s: seq<nat>, v: nat)
    ensures multiset(s)[v] == Occurrences(s, v)
  {
    if |s| > 0 {
      var init := s[..|s| - 1];
      OccurrencesCount(init, v);
      assert s == init + [s[|s| - 1]];
    }
  }

  lemma {:induction false} UnlistedOccurrences(n: nat, xs: seq<nat>, v: nat)
    ensures Occurrences(Unlisted(n, xs), v) == if v < n && v !in xs then 1 else 0
  {
    if n > 0 {
      UnlistedOccurrences(n - 1, xs, v);
      var prev, cur := Unlisted(n - 1, xs), Unlisted(n, xs);
      if n - 1 in xs {
        assert cur == prev;
      } else {
        assert cur == prev + [n - 1];
        assert cur[..|cur| - 1] == prev && cur[|cur| - 1] == n - 1;
      }
    }
  }

  /** Each index below n that xs does not list occurs once in Unlisted; no other value occurs. */
  lemma UnlistedCount(n: nat, xs: seq<nat>, v: nat)
    ensures multiset(Unlisted(n, xs))[v] == if v < n && v !in xs then 1 else 0
  {
    UnlistedOccurrences(n, xs, v);
    OccurrencesCount(Unlisted(n, xs), v);
  }

  /**
    The indices missing from a duplicate-free list of indices below n,
    together with that list, are every index below n exactly once.
   */
  lemma UnlistedComplement(n: nat, xs: seq<nat>)
    requires AtMostOnce(xs)
    requires forall k :: 0 <= k < |xs| ==> xs[k] < n
    ensures multiset(Unlisted(n, xs)) + multiset(xs) == multiset(Range(n))
  {
    forall v: nat
      ensures (multiset(Unlisted(n, xs)) + multiset(xs))[v] == multiset(Range(n))[v]
    {
      UnlistedCount(n, xs, v);
      RangeCount(n, v);
      assert v in xs <==> v in multiset(xs);
    }
    var lhs, rhs := multiset(Unlisted(n, xs)) + multiset(xs), multiset(Range(n));
    forall v | v in lhs || v in rhs
      ensures lhs[v] == rhs[v]
    {
      assert v is nat by {
        if v in lhs {
          assert v in Unlisted(n, xs) || v in xs;
        }
      }
    }
  }

  lemma AtMostOnceOfSmaller(x: seq<nat>, y: seq<nat>)
    requires AtMostOnce(y) && multiset(x) <= multiset(y)
    ensures AtMostOnce(x)
  {
    forall v
      ensures multiset(x)[v] <= 1
    {
      assert multiset(x)[v] <= multiset(y)[v];
    }
  }

  /**
    The filter splits the proposed pairs: kept and rejected together use the
    same detections and the same tracks as all of them.
   */
  lemma {:induction false} FilterSplits(a: seq<seq<real>>, ms: seq<Match>, thr: real)
    requires InMatrix(a, ms)
    ensures multiset(Dets(Kept(a, ms, thr))) + multiset(Dets(Rejected(a, ms, thr))) == multiset(Dets(ms))
    ensures multiset(Trks(Kept(a, ms, thr))) + multiset(Trks(Rejected(a, ms, thr))) == multiset(Trks(ms))
  {
    if |ms| > 0 {
      var init, p := ms[..|ms| - 1], ms[|ms| - 1];
      assert ms == init + [p];
      FilterSplits(a, init, thr);
      var kept, rejected := Kept(a, init, thr), Rejected(a, init, thr);
      Snoc(init, p);
      if a[p.det][p.trk] < thr {
        assert Kept(a, ms, thr) == kept;
        assert Rejected(a, ms, thr) == rejected + [p];
        Snoc(rejected, p);
      } else {
        assert Kept(a, ms, thr) == kept + [p];
        assert Rejected(a, ms, thr) == rejected;
        Snoc(kept, p);
      }
    }
  }

  lemma Snoc(x: seq<Match>, p: Match)
    ensures multiset(Dets(x + [p])) == multiset(Dets(x)) + multiset{p.det}
    ensures multiset(Trks(x + [p])) == multiset(Trks(x)) + multiset{p.trk}
  {
    ProjectAppend(x, [p]);
  }

  /** Every kept pair was proposed and has IoU at least the threshold. */
  lemma {:induction false} KeptAboveThreshold(a: seq<seq<real>>, ms: seq<Match>, thr: real)
    requires InMatrix(a, ms)
    ensures forall k :: 0 <= k < |Kept(a, ms, thr)| ==>
      var p := Kept(a, ms, thr)[k]; p in ms && a[p.det][p.trk] >= thr
  {
    if |ms| > 0 {
      var init, p := ms[..|ms| - 1], ms[|ms| - 1];
      KeptAboveThreshold(a, init, thr);
      assert forall q :: q in init ==> q in ms;
    }
  }

  lemma {:induction false} RowCellsShape(i: nat, row: seq<real>, thr: real)
    ensures |RowCells(i, row, thr)| == AboveCount(row, thr)
    ensures forall k :: 0 <= k < |RowCells(i, row, thr)| ==>
      RowCells(i, row, thr)[k].det == i && RowCells(i, row, thr)[k].trk < |row|
  {
    if |row| > 0 {
      RowCellsShape(i, row[..|row| - 1], thr);
    }
  }

  lemma {:induction false} RowCellsTrkCount(i: nat, row: seq<real>, thr: real, j: nat)
    ensures multiset(Trks(RowCells(i, row, thr)))[j] == if j < |row| && row[j] > thr then 1 else 0
  {
    if |row| > 0 {
      var init := row[..|row| - 1];
      RowCellsTrkCount(i, init, thr, j);
      var tail := if row[|row| - 1] > thr then [Match(i, |row| - 1)] else [];
      ProjectAppend(RowCells(i, init, thr), tail);
      if j < |init| {
        assert init[j] == row[j];
      }
    }
  }

  lemma {:induction false} RowCellsMember(i: nat, row: seq<real>, thr: real, j: nat)
    ensures Match(i, j) in RowCells(i, row, thr) <==> j < |row| && row[j] > thr
  {
    if |row| > 0 {
      var init := row[..|row| - 1];
      RowCellsMember(i, init, thr, j);
      if j < |init| {
        assert init[j] == row[j];
      }
    }
  }

  /** Every cell indexes the matrix. */
  lemma {:induction false} CellsInMatrix(a: seq<seq<real>>, m: nat, thr: real)
    requires IsMatrix(a, |a|, m)
    ensures forall k :: 0 <= k < |Cells(a, thr)| ==> Cells(a, thr)[k].det < |a| && Cells(a, thr)[k].trk < m
  {
    if |a| > 0 {
      CellsInMatrix(a[..|a| - 1], m, thr);
      RowCellsShape(|a| - 1, a[|a| - 1], thr);
    }
  }

  /** Detection i occurs among the cells as often as row i has entries above the threshold. */
  lemma {:induction false} CellsDetCount(a: seq<seq<real>>, thr: real, i: nat)
    ensures multiset(Dets(Cells(a, thr)))[i] == if i < |a| then AboveCount(a[i], thr) else 0
  {
    if |a| > 0 {
      var init, row := a[..|a| - 1], RowCells(|a| - 1, a[|a| - 1], thr);
      CellsDetCount(init, thr, i);
      RowCellsShape(|a| - 1, a[|a| - 1], thr);
      RowDetsCount(|a| - 1, row, i);
      ProjectAppend(Cells(init, thr), row);
      if i < |init| {
        assert init[i] == a[i];
      }
    }
  }

  /** Track j occurs among the cells as often as column j has entries above the threshold. */
  lemma {:induction false} CellsTrkCount(a: seq<seq<real>>, m: nat, thr: real, j: nat)
    requires IsMatrix(a, |a|, m) && j < m
    ensures multiset(Trks(Cells(a, thr)))[j] == ColumnCount(a, j, thr)
  {
    if |a| > 0 {
      var init := a[..|a| - 1];
      CellsTrkCount(init, m, thr, j);
      RowCellsTrkCount(|a| - 1, a[|a| - 1], thr, j);
      ProjectAppend(Cells(init, thr), RowCells(|a| - 1, a[|a| - 1], thr));
    }
  }

  /** A pair is a cell exactly when its entry exceeds the threshold. */
  lemma {:induction false} CellsMember(a: seq<seq<real>>, m: nat, thr: real, i: nat, j: nat)
    requires IsMatrix(a, |a|, m)
    ensures Match(i, j) in Cells(a, thr) <==> i < |a| && j < m && a[i][j] > thr
  {
    if |a| > 0 {
      var init, row := a[..|a| - 1], RowCells(|a| - 1, a[|a| - 1], thr);
      CellsMember(init, m, thr, i, j);
      RowCellsMember(|a| - 1, a[|a| - 1], thr, j);
      RowCellsShape(|a| - 1, a[|a| - 1], thr);
      if Match(i, j) in row {
        var k :| 0 <= k < |row| && row[k] == Match(i, j);
      }
      if i < |init| {
        assert init[i] == a[i];
      }
    }
  }

  lemma RowDetsCount(i: nat, row: seq<Match>, v: nat)
    requires forall k :: 0 <= k < |row| ==> row[k].det == i
    ensures multiset(Dets(row))[v] == if v == i then |row| else 0
  {
    if |row| > 0 {
      var init := row[..|row| - 1];
      RowDetsCount(i, init, v);
      ProjectAppend(init, [row[|row| - 1]]);
      assert row == init + [row[|row| - 1]];
    }
  }

  /** The proposed pairing is always a valid one, on the fast path as with the solver. */
  lemma ProposedValid(a: seq<seq<real>>, m: nat, thr: real, solver: seq<Match>)
    requires IsMatrix(a, |a|, m)
    requires ValidPairing(solver, |a|, m)
    ensures ValidPairing(Proposed(a, m, thr, solver), |a|, m)
  {
    if |a| > 0 && m > 0 && Unambiguous(a, m, thr) {
      CellsInMatrix(a, m, thr);
      CellsDetsOnce(a, m, thr);
      CellsTrksOnce(a, m, thr);
    }
  }

  /** With at most one cell above the threshold per row, no detection is proposed twice. */
  lemma CellsDetsOnce(a: seq<seq<real>>, m: nat, thr: real)
    requires IsMatrix(a, |a|, m) && |a| > 0 && m > 0 && Unambiguous(a, m, thr)
    ensures AtMostOnce(Dets(Cells(a, thr)))
  {
    var cells := Cells(a, thr);
    var rows := RowSums(a, thr);
    forall i | i in Dets(cells)
      ensures multiset(Dets(cells))[i] <= 1
    {
      CellsDetCount(a, thr, i);
      if i < |a| {
        assert rows[i] <= MaxOf(rows);
      }
    }
  }

  /** With at most one cell above the threshold per column, no track is proposed twice. */
  lemma CellsTrksOnce(a: seq<seq<real>>, m: nat, thr: real)
    requires IsMatrix(a, |a|, m) && |a| > 0 && m > 0 && Unambiguous(a, m, thr)
    ensures AtMostOnce(Trks(Cells(a, thr)))
  {
    var cells := Cells(a, thr);
    var cols := ColumnSums(a, m, thr);
    CellsInMatrix(a, m, thr);
    forall j | j in Trks(cells)
      ensures multiset(Trks(cells))[j] <= 1
    {
      var k :| 0 <= k < |cells| && Trks(cells)[k] == j;
      CellsTrkCount(a, m, thr, j);
      assert cols[j] <= MaxOf(cols);
    }
  }

  /** A pair survives the filter exactly when it was proposed and is not below the threshold. */
  lemma {:induction false} KeptMember(a: seq<seq<real>>, ms: seq<Match>, thr: real, p: Match)
    requires InMatrix(a, ms)
    ensures p in Kept(a, ms, thr) <==> p in ms && a[p.det][p.trk] >= thr
  {
    if |ms| > 0 {
      var init := ms[..|ms| - 1];
      KeptMember(a, init, thr, p);
      assert ms == init + [ms[|ms| - 1]];
    }
  }

  /** When no pair is below the threshold, the filter keeps the pairing as it is. */
  lemma {:induction false} KeptAll(a: seq<seq<real>>, ms: seq<Match>, thr: real)
    requires InMatrix(a, ms)
    requires forall k :: 0 <= k < |ms| ==> a[ms[k].det][ms[k].trk] > thr
    ensures Kept(a, ms, thr) == ms
  {
    if |ms| > 0 {
      var init := ms[..|ms| - 1];
      KeptAll(a, init, thr);
      assert ms == init + [ms[|ms| - 1]];
    }
  }

  /**
    On the fast path the matches are the above-threshold cells in row-major
    order: a pair is matched exactly when its IoU exceeds the threshold.
   */
  lemma FastPathMatches(a: seq<seq<real>>, m: nat, thr: real, solver: seq<Match>)
    requires IsMatrix(a, |a|, m)
    requires ValidPairing(solver, |a|, m)
    requires |a| > 0 && m > 0 && Unambiguous(a, m, thr)
    ensures Associate(a, m, thr, solver).matches == Cells(a, thr)
    ensures forall i: nat, j: nat :: Match(i, j) in Associate(a, m, thr, solver).matches <==>
      i < |a| && j < m && a[i][j] > thr
  {
    var cells := Cells(a, thr);
    ProposedValid(a, m, thr, solver);
    forall k | 0 <= k < |cells|
      ensures a[cells[k].det][cells[k].trk] > thr
    {
      CellsMember(a, m, thr, cells[k].det, cells[k].trk);
      assert Match(cells[k].det, cells[k].trk) == cells[k];
    }
    KeptAll(a, cells, thr);
    forall i: nat, j: nat
      ensures Match(i, j) in cells <==> i < |a| && j < m && a[i][j] > thr
    {
      CellsMember(a, m, thr, i, j);
    }
  }

  /**
    Off the fast path the matches are the solver's pairs, in the solver's
    order, that are not below the threshold.
   */
  lemma SolverPathMatches(a: seq<seq<real>>, m: nat, thr: real, solver: seq<Match>, p: Match)
    requires IsMatrix(a, |a|, m)
    requires ValidPairing(solver, |a|, m)
    requires |a| > 0 && m > 0 && !Unambiguous(a, m, thr)
    ensures Associate(a, m, thr, solver).matches == Kept(a, solver, thr)
    ensures p in Associate(a, m, thr, solver).matches <==> p in solver && a[p.det][p.trk] >= thr
  {
    assert InMatrix(a, solver);
    KeptMember(a, solver, thr, p);
  }

  /**
    The two tests disagree at the threshold itself: the fast path needs an IoU
    above it, but the filter rejects only an IoU below it, so a pair the solver
    proposes with IoU exactly at the threshold is kept as a match.
   */
  lemma SolverPairAtThresholdKept(a: seq<seq<real>>, m: nat, thr: real, solver: seq<Match>, k: nat)
    requires IsMatrix(a, |a|, m)
    requires ValidPairing(solver, |a|, m)
    requires |a| > 0 && m > 0 && !Unambiguous(a, m, thr)
    requires k < |solver| && a[solver[k].det][solver[k].trk] == thr
    ensures solver[k] in Associate(a, m, thr, solver).matches
  {
    assert InMatrix(a, solver);
    KeptMember(a, solver, thr, solver[k]);
  }

  /** No pair with IoU exactly at the threshold is matched on the fast path. */
  lemma FastPathExcludesThreshold(a: seq<seq<real>>, m: nat, thr: real, solver: seq<Match>, i: nat, j: nat)
    requires IsMatrix(a, |a|, m)
    requires ValidPairing(solver, |a|, m)
    requires |a| > 0 && m > 0 && Unambiguous(a, m, thr)
    requires i < |a| && j < m && a[i][j] == thr
    ensures Match(i, j) !in Associate(a, m, thr, solver).matches
  {
    FastPathMatches(a, m, thr, solver);
  }

  /** In a list where no index occurs twice, distinct positions hold distinct indices. */
  lemma AtMostOnceDistinct(xs: seq<nat>, k: nat, l: nat)
    requires AtMostOnce(xs) && k < l < |xs|
    ensures xs[k] != xs[l]
  {
    var v := xs[l];
    assert xs == xs[..l] + xs[l..];
    assert xs[l..][0] == v;
    assert multiset(xs)[v] == multiset(xs[..l])[v] + multiset(xs[l..])[v];
    assert multiset(xs[..l])[v] == 0;
    assert xs[..l][k] == xs[k];
  }
}
