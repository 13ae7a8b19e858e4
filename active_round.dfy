/**
 * The score-entry screen of one round (components/active-round.tsx): the
 * scores typed so far, one pair per match, and the two-step submit button.
 */
module ActiveRound {
  import opened Wrappers
  import opened Tournament

  /** Which score a button changes, `"score1"` or `"score2"` in the source. */
  datatype Side = Score1 | Score2

  /** The scores typed for one match. */
  datatype Score = Score(score1: int, score2: int)

  function Other(side: Side): Side {
    if side == Score1 then Score2 else Score1
  }

  function Get(s: Score, side: Side): int {
    if side == Score1 then s.score1 else s.score2
  }

  function With(s: Score, side: Side, v: int): (r: Score)
    ensures Get(r, side) == v && Get(r, Other(side)) == Get(s, Other(side))
  {
    if side == Score1 then s.(score1 := v) else s.(score2 := v)
  }

  /** The screen's state: the `scores` list and the `confirming` flag. */
  datatype Sheet = Sheet(scores: seq<Score>, confirming: bool)

  /** The state on entry: a zero score pair for every match, no confirm prompt. */
  function Initial(matches: seq<Match>): (s: Sheet)
    ensures |s.scores| == |matches| && !s.confirming
    ensures forall k :: 0 <= k < |s.scores| ==> Get(s.scores[k], Score1) == 0 && Get(s.scores[k], Score2) == 0
  {
    Sheet(seq(|matches|, _ => Score(0, 0)), false)
  }

  /** `Math.max(0, v)`. */
  function Clamped(v: int): (r: int)
    ensures r >= 0 && r >= v
    ensures r == v || r == 0
  {
    if 0 > v then 0 else v
  }

  /**
   * `updateScore(matchIdx, team, delta)`: one score moves by `delta`, never
   * below zero; everything else stays as it was.
   */
  function Updated(sheet: Sheet, matchIdx: int, team: Side, delta: int): (r: Sheet)
    requires 0 <= matchIdx < |sheet.scores|
    ensures |r.scores| == |sheet.scores| && r.confirming == sheet.confirming
    ensures forall k :: 0 <= k < |r.scores| && k != matchIdx ==> r.scores[k] == sheet.scores[k]
    ensures Get(r.scores[matchIdx], team) >= 0
    ensures Get(r.scores[matchIdx], team) == Clamped(Get(sheet.scores[matchIdx], team) + delta)
    ensures Get(r.scores[matchIdx], Other(team)) == Get(sheet.scores[matchIdx], Other(team))
  {
    var current := Get(sheet.scores[matchIdx], team);
    sheet.(scores := sheet.scores[matchIdx := With(sheet.scores[matchIdx], team, Clamped(current + delta))])
  }

  /** Every score on the sheet is at least zero. */
  predicate NonNegative(sheet: Sheet) {
    forall k :: 0 <= k < |sheet.scores| ==> sheet.scores[k].score1 >= 0 && sheet.scores[k].score2 >= 0
  }

  /** Scores start at zero and the clamp keeps them there or above. */
  lemma InitialNonNegative(matches: seq<Match>)
    ensures NonNegative(Initial(matches))
  {
    var s := Initial(matches);
    forall k | 0 <= k < |s.scores| ensures s.scores[k].score1 >= 0 && s.scores[k].score2 >= 0 {
      assert Get(s.scores[k], Score1) == 0 && Get(s.scores[k], Score2) == 0;
    }
  }

  lemma UpdateKeepsNonNegative(sheet: Sheet, matchIdx: int, team: Side, delta: int)
    requires 0 <= matchIdx < |sheet.scores| && NonNegative(sheet)
    ensures NonNegative(Updated(sheet, matchIdx, team, delta))
  {
    var r := Updated(sheet, matchIdx, team, delta);
    var s := r.scores[matchIdx];
    assert Get(s, team) >= 0;
    assert Get(s, Other(team)) == Get(sheet.scores[matchIdx], Other(team));
    assert s.score1 >= 0 && s.score2 >= 0 by {
      if team == Score1 {
        assert s.score2 == Get(s, Other(team));
      } else {
        assert s.score1 == Get(s, Other(team));
      }
    }
  }

  /** Decrementing a zero score leaves the whole sheet unchanged. */
  lemma DecrementAtZero(sheet: Sheet, matchIdx: int, team: Side, delta: int)
    requires 0 <= matchIdx < |sheet.scores| && Get(sheet.scores[matchIdx], team) == 0 && delta <= 0
    ensures Updated(sheet, matchIdx, team, delta) == sheet
  {
    var r := Updated(sheet, matchIdx, team, delta);
    assert r.scores[matchIdx] == sheet.scores[matchIdx] by {
      if team == Score1 {
        assert r.scores[matchIdx].score2 == Get(r.scores[matchIdx], Other(team));
      } else {
        assert r.scores[matchIdx].score1 == Get(r.scores[matchIdx], Other(team));
      }
    }
    assert r.scores == sheet.scores;
  }

  /** A step the clamp does not cut is undone by the opposite step. */
  lemma UpdateUndone(sheet: Sheet, matchIdx: int, team: Side, delta: int)
    requires 0 <= matchIdx < |sheet.scores|
    requires Get(sheet.scores[matchIdx], team) >= 0 && Get(sheet.scores[matchIdx], team) + delta >= 0
    ensures Updated(Updated(sheet, matchIdx, team, delta), matchIdx, team, -delta) == sheet
  {
    var r := Updated(Updated(sheet, matchIdx, team, delta), matchIdx, team, -delta);
    assert r.scores[matchIdx] == sheet.scores[matchIdx] by {
      if team == Score1 {
        assert r.scores[matchIdx].score2 == Get(r.scores[matchIdx], Other(team));
      } else {
        assert r.scores[matchIdx].score1 == Get(r.scores[matchIdx], Other(team));
      }
    }
    assert r.scores == sheet.scores;
  }

  /** A match counts as scored once either side has more than zero games. */
  predicate Filled(s: Score) {
    s.score1 > 0 || s.score2 > 0
  }

  /** `allFilled`: `scores.every(...)`. */
  function AllFilled(scores: seq<Score>): (r: bool)
    ensures r <==> forall k :: 0 <= k < |scores| ==> Filled(scores[k])
  {
    if scores == [] then true
    else
      assert forall k :: 1 <= k < |scores| ==> scores[k] == scores[1..][k - 1];
      Filled(scores[0]) && AllFilled(scores[1..])
  }

  /**
   * `handleSubmit`: a press without the prompt only opens it; a press while
   * confirming hands the current scores to `onSubmitScores`.
   */
  function Pressed(sheet: Sheet): (r: (Sheet, Option<seq<Score>>))
    ensures r.1.Some? <==> sheet.confirming
    ensures r.1.Some? ==> r.1.value == sheet.scores
    ensures r.0.confirming && r.0.scores == sheet.scores
  {
    if !sheet.confirming then (sheet.(confirming := true), None)
    else (sheet, Some(sheet.scores))
  }

  /** The Cancel button. */
  function Cancelled(sheet: Sheet): (r: Sheet)
    ensures !r.confirming && r.scores == sheet.scores
  {
    sheet.(confirming := false)
  }

  /** Two presses from the plain button submit exactly the scores on the sheet, the first press submits nothing. */
  lemma PressTwiceSubmits(sheet: Sheet)
    requires !sheet.confirming
    ensures Pressed(sheet).1 == None
    ensures Pressed(Pressed(sheet).0).1 == Some(sheet.scores)
  {
  }

  /** Cancel after the first press returns to the state before it. */
  lemma CancelUndoesPress(sheet: Sheet)
    requires !sheet.confirming
    ensures Cancelled(Pressed(sheet).0) == sheet
  {
  }

  /**
   * `allFilled` only styles the button: an untouched sheet of a round with
   * matches is not filled, and two presses still submit it.
   */
  lemma SubmitNotGated(matches: seq<Match>)
    requires |matches| > 0
    ensures !AllFilled(Initial(matches).scores)
    ensures Pressed(Pressed(Initial(matches)).0).1 == Some(Initial(matches).scores)
  {
    var s := Initial(matches);
    assert Get(s.scores[0], Score1) == 0 && Get(s.scores[0], Score2) == 0;
    assert !Filled(s.scores[0]);
  }

  /** The component's state fields. */
  class ScoreEntry {
    var scores: seq<Score>
    var confirming: bool

    function State(): Sheet
      reads this
    {
      Sheet(scores, confirming)
    }

    constructor (matches: seq<Match>)
      ensures State() == Initial(matches)
    {
      scores := seq(|matches|, _ => Score(0, 0));
      confirming := false;
    }

    method UpdateScore(matchIdx: int, team: Side, delta: int)
      requires 0 <= matchIdx < |scores|
      modifies this
      ensures State() == Updated(old(State()), matchIdx, team, delta)
    {
      var copy := scores;
      var current := Get(copy[matchIdx], team);
      var newVal := if 0 > current + delta then 0 else current + delta;
      copy := copy[matchIdx := With(copy[matchIdx], team, newVal)];
      scores := copy;
    }

    method HandleSubmit() returns (submitted: Option<seq<Score>>)
      modifies this
      ensures (State(), submitted) == Pressed(old(State()))
    {
      if !confirming {
        confirming := true;
        return None;
      }
      submitted := Some(scores);
    }

    method Cancel()
      modifies this
      ensures State() == Cancelled(old(State()))
    {
      confirming := false;
    }
  }
}
