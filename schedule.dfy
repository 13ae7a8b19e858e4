/**
 * The round-robin scheduler: `generateFullSchedule` in lib/tournament.ts.
 *
 * An odd roster is padded with the sentinel `ByeSlot`. The first entry of the
 * padded list stays fixed and the rest (the ribbon) is rotated right by one
 * after every round. In each round position i is paired with position
 * size - 1 - i; a pair holding the sentinel gives the round's bye, and the
 * remaining pairs are taken two at a time as the teams of court-numbered
 * matches, at most `courts` of them.
 *
 * `FullSchedule` is the specification, `GenerateFullSchedule` the loop that
 * computes it. The partner properties are stated over the per-round fold
 * pairs (`RoundPairs`); the match properties separately.
 */
module Schedule {
  import opened Wrappers
  import opened Tournament
  import opened CircleMethod

  /** The phantom player that pads an odd roster (lib/tournament.ts:110). */
  const ByeSlot: string := "__BYE__"

  /** The roster, with the sentinel appended when its length is odd. */
  function Padded(names: seq<string>): (list: seq<string>)
    ensures |list| % 2 == 0 && |names| <= |list| <= |names| + 1
    ensures list[..|names|] == names
    ensures |list| > |names| ==> list[|names|] == ByeSlot
  {
    if |names| % 2 != 0 then names + [ByeSlot] else names
  }

  // ---------------------------------------------------------------------------
  // The rotating ribbon.

  /** `unshift(pop())`: the last element moves to the front. */
  function RotateRight<T>(s: seq<T>): (t: seq<T>)
    ensures |t| == |s|
  {
    if s == [] then s else [s[|s| - 1]] + s[..|s| - 1]
  }

  /** The ribbon after r rotations. */
  function Rotated<T>(s: seq<T>, r: nat): (t: seq<T>)
    ensures |t| == |s|
  {
    if r == 0 then s else RotateRight(Rotated(s, r - 1))
  }

  /** The ordering of round r: the fixed first entry, then the rotated ribbon. */
  function Ordering(list: seq<string>, r: nat): (cur: seq<string>)
    requires |list| > 0
    ensures |cur| == |list|
  {
    [list[0]] + Rotated(list[1..], r)
  }

  /** Position i paired with position |cur| - 1 - i (lib/tournament.ts:129-132). */
  function FoldPairs<T>(cur: seq<T>): (pairs: seq<(T, T)>)
  {
    seq(|cur| / 2, i requires 0 <= i < |cur| / 2 => (cur[i], cur[|cur| - 1 - i]))
  }

  /** The fold pairs of round r of a padded list. */
  function RoundPairs(list: seq<string>, r: nat): seq<Team>
    requires |list| > 0
  {
    FoldPairs(Ordering(list, r))
  }

  /** The players of a list of pairs, pair by pair. */
  function Flatten<T>(pairs: seq<(T, T)>): (s: seq<T>)
    ensures |s| == 2 * |pairs|
  {
    if pairs == [] then [] else [pairs[0].0, pairs[0].1] + Flatten(pairs[1..])
  }

  // ---------------------------------------------------------------------------
  // Bye detection (lib/tournament.ts:134-146).

  datatype Split = Split(bye: Option<string>, active: seq<Team>)

  /**
   * The scan over the pairs: a pair whose first, else second, member is the
   * sentinel sets the bye to the other member (a later one overwrites an
   * earlier one); every other pair is kept as active, in order.
   */
  function SplitBye(pairs: seq<Team>): Split
  {
    if pairs == [] then Split(None, [])
    else
      var prev := SplitBye(pairs[..|pairs| - 1]);
      var p := pairs[|pairs| - 1];
      if p.0 == ByeSlot then Split(Some(p.1), prev.active)
      else if p.1 == ByeSlot then Split(Some(p.0), prev.active)
      else Split(prev.bye, prev.active + [p])
  }

  /** The member of a pair that is not the sentinel in first place. */
  function Partner(t: Team): string {
    if t.0 == ByeSlot then t.1 else t.0
  }

  predicate Clean(t: Team) {
    t.0 != ByeSlot && t.1 != ByeSlot
  }

  /** Pair i holds the sentinel exactly once and no other pair holds it. */
  predicate OnlyByeAt(pairs: seq<Team>, i: int) {
    && 0 <= i < |pairs|
    && (pairs[i].0 == ByeSlot) != (pairs[i].1 == ByeSlot)
    && forall j :: 0 <= j < |pairs| && j != i ==> Clean(pairs[j])
  }

  // ---------------------------------------------------------------------------
  // Matches (lib/tournament.ts:151-166).

  /** `Math.min(courts, floor(active / 2))`; negative when courts is. */
  function MatchCount(active: seq<Team>, courts: int): int {
    if courts < |active| / 2 then courts else |active| / 2
  }

  /** Consecutive active pairs become the teams of matches on courts 1, 2, ... */
  function Matches(active: seq<Team>, courts: int): (ms: seq<Match>)
  {
    var c := MatchCount(active, courts);
    if c <= 0 then []
    else seq(c, t requires 0 <= t < c => Match(t + 1, active[2 * t], active[2 * t + 1], 0, 0, false))
  }

  /** The round with index r whose ordering is `current`. */
  function RoundFrom(current: seq<string>, courts: int, r: nat): Round {
    var split := SplitBye(FoldPairs(current));
    Round(r + 1, Matches(split.active, courts), split.bye)
  }

  /** Round r of the padded list. */
  function RoundAt(list: seq<string>, courts: int, r: nat): Round
    requires |list| > 0
  {
    RoundFrom(Ordering(list, r), courts, r)
  }

  /** The size - 1 rounds of a non-empty padded list, numbered from 1. */
  function RoundsOf(list: seq<string>, courts: int): (rounds: seq<Round>)
    requires |list| > 0
  {
    seq(|list| - 1, r requires 0 <= r < |list| - 1 => RoundAt(list, courts, r))
  }

  /** The whole schedule; an empty roster gives no rounds. */
  function FullSchedule(names: seq<string>, courts: int): seq<Round>
  {
    var list := Padded(names);
    if list == [] then [] else RoundsOf(list, courts)
  }

  /** A prefix grows by the next element. */
  lemma PrefixStep<T>(s: seq<T>, r: nat)
    requires r < |s|
    ensures s[..r + 1] == s[..r] + [s[r]]
  {
  }

  // ---------------------------------------------------------------------------
  // The imperative scheduler.

  /** Rotates the ribbon in place: pop the last element, shift, put it first. */
  method RotateRibbon<T>(a: array<T>)
    requires a.Length > 0
    modifies a
    ensures a[..] == RotateRight(old(a[..]))
  {
    ghost var s := a[..];
    var last := a[a.Length - 1];
    var i := a.Length - 1;
    while i > 0
      invariant 0 <= i <= a.Length - 1
      invariant forall k :: 0 <= k <= i ==> a[k] == s[k]
      invariant forall k :: i < k < a.Length ==> a[k] == s[k - 1]
    {
      a[i] := a[i - 1];
      i := i - 1;
    }
    a[0] := last;
    assert a[..] == [s[|s| - 1]] + s[..|s| - 1] by {
      forall k | 0 <= k < a.Length
        ensures a[..][k] == ([s[|s| - 1]] + s[..|s| - 1])[k]
      {
      }
    }
  }

  /** The fold pairing loop (lib/tournament.ts:129-132). */
  method PairUp(current: seq<string>) returns (pairs: seq<Team>)
    ensures pairs == FoldPairs(current)
  {
    var size := |current|;
    pairs := [];
    for i := 0 to size / 2
      invariant pairs == FoldPairs(current)[..i]
    {
      pairs := pairs + [(current[i], current[size - 1 - i])];
    }
  }

  /** The bye scan (lib/tournament.ts:134-146). */
  method FindBye(pairs: seq<Team>) returns (bye: Option<string>, activePairs: seq<Team>)
    ensures Split(bye, activePairs) == SplitBye(pairs)
  {
    bye := None;
    activePairs := [];
    for j := 0 to |pairs|
      invariant SplitBye(pairs[..j]) == Split(bye, activePairs)
    {
      assert pairs[..j + 1][..j] == pairs[..j];
      var pair := pairs[j];
      if pair.0 == ByeSlot {
        bye := Some(pair.1);
      } else if pair.1 == ByeSlot {
        bye := Some(pair.0);
      } else {
        activePairs := activePairs + [pair];
      }
    }
    assert pairs[..|pairs|] == pairs;
  }

  /** The match-building loop (lib/tournament.ts:151-166). */
  method GroupMatches(activePairs: seq<Team>, courts: int) returns (matches: seq<Match>)
    ensures matches == Matches(activePairs, courts)
  {
    var matchCount := if courts < |activePairs| / 2 then courts else |activePairs| / 2;
    assert matchCount == MatchCount(activePairs, courts);
    matches := [];
    var m := 0;
    while m < matchCount
      invariant 0 <= m <= (if matchCount < 0 then 0 else matchCount)
      invariant |matches| == m
      invariant forall t :: 0 <= t < m ==> matches[t] == Match(t + 1, activePairs[2 * t], activePairs[2 * t + 1], 0, 0, false)
    {
      var p1 := activePairs[m * 2];
      var p2 := activePairs[m * 2 + 1];
      matches := matches + [Match(m + 1, p1, p2, 0, 0, false)];
      m := m + 1;
    }
    MatchesExtension(activePairs, courts, matches);
  }

  /** The matches built one court at a time are `Matches`. */
  lemma MatchesExtension(activePairs: seq<Team>, courts: int, matches: seq<Match>)
    requires var c := MatchCount(activePairs, courts);
      && |matches| == (if c < 0 then 0 else c)
      && forall t :: 0 <= t < |matches| ==> matches[t] == Match(t + 1, activePairs[2 * t], activePairs[2 * t + 1], 0, 0, false)
    ensures matches == Matches(activePairs, courts)
  {
  }

  /** Builds the round whose ordering is `current` (lib/tournament.ts:123-172). */
  method BuildRound(current: seq<string>, courts: int, r: nat) returns (round: Round)
    ensures round == RoundFrom(current, courts, r)
  {
    var pairs := PairUp(current);
    var bye, activePairs := FindBye(pairs);
    var matches := GroupMatches(activePairs, courts);
    round := Round(r + 1, matches, bye);
  }

  /**
   * One pass of the round loop (lib/tournament.ts:121-177): the round of the
   * current ordering, then the ribbon rotated in place.
   */
  method PlayRound(fixed: string, rotating: array<string>, courts: int, r: nat) returns (round: Round)
    requires rotating.Length > 0
    modifies rotating
    ensures round == RoundFrom([fixed] + old(rotating[..]), courts, r)
    ensures rotating[..] == RotateRight(old(rotating[..]))
  {
    var current := [fixed] + rotating[..];
    round := BuildRound(current, courts, r);
    RotateRibbon(rotating);
  }

  method GenerateFullSchedule(playerNames: seq<string>, courts: int) returns (rounds: seq<Round>)
    ensures rounds == FullSchedule(playerNames, courts)
  {
    var n := |playerNames|;
    var isOdd := n % 2 != 0;
    var list := playerNames;
    if isOdd {
      list := list + [ByeSlot];
    }
    assert list == Padded(playerNames);
    rounds := [];
    if |list| > 0 {
      rounds := RoundLoop(list, courts);
    }
  }

  /** The round loop over a non-empty padded list (lib/tournament.ts:116-177). */
  method RoundLoop(list: seq<string>, courts: int) returns (rounds: seq<Round>)
    requires |list| > 0
    ensures rounds == RoundsOf(list, courts)
  {
    var size := |list|;
    var totalRounds := size - 1;
    var rotating := new string[size - 1](i requires 0 <= i < size - 1 => list[i + 1]);
    assert rotating[..] == Rotated(list[1..], 0);
    rounds := [];
    var r: nat := 0;
    while r < totalRounds
      invariant r <= totalRounds
      invariant rotating.Length == size - 1 && rotating[..] == Rotated(list[1..], r)
      invariant rounds == RoundsOf(list, courts)[..r]
    {
      rounds := PushRound(list, courts, rotating, rounds, r);
      r := r + 1;
    }
    assert RoundsOf(list, courts)[..r] == RoundsOf(list, courts);
  }

  /**
   * One iteration of the round loop: pushes round r, whose ordering is the
   * fixed entry and the ribbon rotated r times, and rotates the ribbon.
   */
  method PushRound(list: seq<string>, courts: int, rotating: array<string>, rounds: seq<Round>, r: nat)
    returns (pushed: seq<Round>)
    requires r < |list| - 1 && rotating.Length == |list| - 1
    requires rotating[..] == Rotated(list[1..], r) && rounds == RoundsOf(list, courts)[..r]
    modifies rotating
    ensures rotating[..] == Rotated(list[1..], r + 1)
    ensures pushed == RoundsOf(list, courts)[..r + 1]
  {
    assert [list[0]] + rotating[..] == Ordering(list, r);
    var round := PlayRound(list[0], rotating, courts, r);
    PrefixStep(RoundsOf(list, courts), r);
    pushed := rounds + [round];
  }
}
