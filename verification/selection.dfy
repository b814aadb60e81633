/**
 The "keep the best so far" rule shared by both search loops of
 `ChamberHandler` (common/trek/chamberhandler.cpp:38-41 and 126-131): a
 candidate replaces the current best when its deviation is not -1 and is
 strictly smaller, so on ties the earliest candidate stays.
 */
module Selection {
  import opened TrekTypes

  /** `dev != -1 && dev < best`. */
  predicate Improves(candidate: Dev, best: Dev)
  {
    candidate != Val(UnfittableDeviation) && Below(candidate, best)
  }

  /** A deviation that takes part in the comparison: finite and not the -1 marker. */
  predicate Scored(d: Dev)
  {
    d.Val? && d.v != UnfittableDeviation
  }

  /**
   The track left after scanning `cands` in order, starting from `Unset`:
   either `Unset` or one of the candidates.
   */
  function KeepBest(cands: seq<TrackDescription>): (best: TrackDescription)
    ensures best == Unset || best in cands
  {
    if |cands| == 0 then Unset
    else
      var sofar := KeepBest(cands[..|cands| - 1]);
      var last := cands[|cands| - 1];
      if Improves(last.deviation, sofar.deviation) then last else sofar
  }

  /**
   Candidate `i` is scored, no scored candidate is smaller, and every scored
   candidate before it is strictly larger.
   */
  predicate IsFirstMinimum(cands: seq<TrackDescription>, i: int)
  {
    && 0 <= i < |cands|
    && Scored(cands[i].deviation)
    && (forall j :: 0 <= j < |cands| && Scored(cands[j].deviation) ==> cands[i].deviation.v <= cands[j].deviation.v)
    && (forall j :: 0 <= j < i && Scored(cands[j].deviation) ==> cands[i].deviation.v < cands[j].deviation.v)
  }

  /** No candidate is scored. */
  predicate NoneScored(cands: seq<TrackDescription>)
  {
    forall j :: 0 <= j < |cands| ==> !Scored(cands[j].deviation)
  }

  /**
   The scan returns `Unset` exactly when no candidate is scored, and otherwise
   the first candidate of minimal deviation.
   */
  lemma {:induction false} KeepBestIsFirstMinimum(cands: seq<TrackDescription>)
    ensures NoneScored(cands) <==> KeepBest(cands) == Unset
    ensures !NoneScored(cands) ==> exists i :: IsFirstMinimum(cands, i) && KeepBest(cands) == cands[i]
  {
    if |cands| > 0 {
      var front := cands[..|cands| - 1];
      var last := cands[|cands| - 1];
      KeepBestIsFirstMinimum(front);
      var sofar := KeepBest(front);
      assert KeepBest(cands) == if Improves(last.deviation, sofar.deviation) then last else sofar;
      if NoneScored(front) {
        if Scored(last.deviation) {
          FirstScoredIsFirstMinimum(cands);
        } else {
          assert NoneScored(cands) by {
            assert forall j :: 0 <= j < |front| ==> cands[j] == front[j];
          }
        }
      } else {
        var i :| IsFirstMinimum(front, i) && sofar == front[i];
        ExtendFirstMinimum(cands, i);
      }
    }
  }

  /** When only the last candidate is scored, it is the first minimum. */
  lemma FirstScoredIsFirstMinimum(cands: seq<TrackDescription>)
    requires |cands| > 0 && Scored(cands[|cands| - 1].deviation)
    requires NoneScored(cands[..|cands| - 1])
    ensures IsFirstMinimum(cands, |cands| - 1)
  {
    assert forall j :: 0 <= j < |cands| - 1 ==> cands[j] == cands[..|cands| - 1][j];
  }

  /**
   Appending one candidate to a list whose first minimum is `i`: the new first
   minimum is the appended candidate when it improves on `i`, and `i` otherwise.
   */
  lemma ExtendFirstMinimum(cands: seq<TrackDescription>, i: int)
    requires |cands| > 0 && IsFirstMinimum(cands[..|cands| - 1], i)
    ensures var n := |cands| - 1;
      if Improves(cands[n].deviation, cands[i].deviation) then IsFirstMinimum(cands, n) else IsFirstMinimum(cands, i)
  {
    var n := |cands| - 1;
    assert forall j :: 0 <= j < n ==> cands[j] == cands[..n][j];
    assert cands[i].deviation == Val(cands[i].deviation.v);
  }

  /** The scan's result is every first minimum there is: the first minimum is unique. */
  lemma KeepBestIsEveryFirstMinimum(cands: seq<TrackDescription>, i: int)
    requires IsFirstMinimum(cands, i)
    ensures KeepBest(cands) == cands[i]
  {
    KeepBestIsFirstMinimum(cands);
    var j :| IsFirstMinimum(cands, j) && KeepBest(cands) == cands[j];
    FirstMinimumUnique(cands, i, j);
  }

  /** There is at most one first minimum. */
  lemma FirstMinimumUnique(cands: seq<TrackDescription>, i: int, j: int)
    requires IsFirstMinimum(cands, i) && IsFirstMinimum(cands, j)
    ensures i == j
  {
  }
}
