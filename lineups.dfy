/**
 * Who is on court in a round of `generateFullSchedule` (lib/tournament.ts:134-166):
 * for a roster without repeated names, nobody plays on two courts at once or
 * twice in one match, the resting player plays on no court, and everyone on
 * court is on the roster.
 */
module Lineups {
  import opened Wrappers
  import opened Tournament
  import opened Schedule
  import opened ScheduleProperties

  /** The teams of a list of matches, team1 then team2, match by match. */
  function Teams(ms: seq<Match>): (ts: seq<Team>)
    ensures |ts| == 2 * |ms|
  {
    seq(2 * |ms|, i requires 0 <= i < 2 * |ms| => if i % 2 == 0 then ms[i / 2].team1 else ms[i / 2].team2)
  }

  /** Every player on court, team by team. */
  function Lineup(ms: seq<Match>): seq<string> {
    Flatten(Teams(ms))
  }

  /** The matches take the leading active pairs, two per court, in order. */
  lemma MatchesTeams(active: seq<Team>, courts: int)
    ensures 2 * |Matches(active, courts)| <= |active|
    ensures Teams(Matches(active, courts)) == active[..2 * |Matches(active, courts)|]
  {
    var ms := Matches(active, courts);
    MatchesFresh(active, courts);
    var ts := Teams(ms);
    forall i | 0 <= i < |ts|
      ensures ts[i] == active[i]
    {
      assert i == 2 * (i / 2) + i % 2;
    }
  }

  lemma {:induction false} FlattenAppend<T>(a: seq<(T, T)>, b: seq<(T, T)>)
    ensures Flatten(a + b) == Flatten(a) + Flatten(b)
  {
    if a == [] {
      assert a + b == b;
    } else {
      assert (a + b)[0] == a[0] && (a + b)[1..] == a[1..] + b;
      FlattenAppend(a[1..], b);
    }
  }

  /** Dropping a stretch from a sequence without repeats leaves none, and none of the dropped entries. */
  lemma DistinctDrop<T>(a: seq<T>, m: seq<T>, b: seq<T>)
    requires Distinct(a + m + b)
    ensures Distinct(a + b)
    ensures forall x :: x in m ==> x !in a + b
  {
    var s := a + m + b;
    var t := a + b;
    forall i, j | 0 <= i < j < |t|
      ensures t[i] != t[j]
    {
      var i' := if i < |a| then i else i + |m|;
      var j' := if j < |a| then j else j + |m|;
      assert t[i] == s[i'] && t[j] == s[j'];
    }
    forall k, i | 0 <= k < |m| && 0 <= i < |t|
      ensures t[i] != m[k]
    {
      var i' := if i < |a| then i else i + |m|;
      assert t[i] == s[i'] && m[k] == s[|a| + k];
    }
  }

  /** Every member of a flattened list of pairs is a member of one of its pairs. */
  lemma {:induction false} FlattenMember<T>(pairs: seq<(T, T)>, x: T) returns (t: (T, T))
    requires x in Flatten(pairs)
    ensures t in pairs && (x == t.0 || x == t.1)
  {
    if x == pairs[0].0 || x == pairs[0].1 {
      t := pairs[0];
    } else {
      t := FlattenMember(pairs[1..], x);
    }
  }

  /**
   * The active pairs of a round repeat nobody, and the bye is in none of
   * them, whenever the fold pairs repeat nobody.
   */
  lemma SplitByeDisjoint(pairs: seq<Team>, split: Split)
    requires Distinct(Flatten(pairs))
    requires split == Split(None, pairs) || exists i :: OnlyByeAt(pairs, i) && split == SplitBye(pairs)
    ensures Distinct(Flatten(split.active))
    ensures split.bye.Some? ==> split.bye.value !in Flatten(split.active)
  {
    if split != Split(None, pairs) {
      var i :| OnlyByeAt(pairs, i) && split == SplitBye(pairs);
      SplitByeOne(pairs, i);
      var p := pairs[i];
      var front, back := pairs[..i], pairs[i + 1..];
      var a, m, b := Flatten(front), [p.0, p.1], Flatten(back);
      assert pairs == front + [p] + back;
      FlattenAppend(front + [p], back);
      FlattenAppend(front, [p]);
      assert Flatten([p]) == m;
      assert Flatten(pairs) == a + m + b;
      DistinctDrop(a, m, b);
      assert split.active == front + back;
      FlattenAppend(front, back);
      assert Flatten(split.active) == a + b;
      assert split.bye.value == Partner(p) && Partner(p) in m;
    }
  }

  /** The active pairs of round r repeat nobody and leave out the bye. */
  lemma ActiveDisjoint(names: seq<string>, r: int) returns (split: Split)
    requires Distinct(names) && ByeSlot !in names && names != [] && 0 <= r < |Padded(names)| - 1
    ensures split == SplitBye(RoundPairs(Padded(names), r))
    ensures Distinct(Flatten(split.active))
    ensures split.bye.Some? ==> split.bye.value !in Flatten(split.active)
  {
    var list := Padded(names);
    var pairs := RoundPairs(list, r);
    split := SplitBye(pairs);
    PaddedDistinct(names);
    RoundDisjoint(list, r);
    if |names| % 2 == 0 {
      EvenPairsClean(names, r);
      SplitByeClean(pairs);
    } else {
      var i := OddPairsBye(names, r);
    }
    SplitByeDisjoint(pairs, split);
  }

  /** Everyone in the active pairs of round r is on the roster. */
  lemma ActiveOnRoster(names: seq<string>, r: int, x: string)
    requires ByeSlot !in names && names != [] && 0 <= r < |Padded(names)| - 1
    requires x in Flatten(SplitBye(RoundPairs(Padded(names), r)).active)
    ensures x in names
  {
    var list := Padded(names);
    var pairs := RoundPairs(list, r);
    var t := FlattenMember(SplitBye(pairs).active, x);
    SplitByeActive(pairs);
    var k :| 0 <= k < |pairs| && pairs[k] == t;
    FlattenAt(pairs, k);
    var flat := Flatten(pairs);
    assert x == flat[2 * k] || x == flat[2 * k + 1];
    assert x in multiset(flat);
    RoundCover(list, r);
    assert x in multiset(list);
    PaddedMember(names, x);
  }

  /** The padded roster adds nobody but the resting slot. */
  lemma PaddedMember(names: seq<string>, x: string)
    requires x in multiset(Padded(names)) && x != ByeSlot
    ensures x in names
  {
    var list := Padded(names);
    var i :| 0 <= i < |list| && list[i] == x;
    if i < |names| {
      assert list[..|names|][i] == x;
    }
  }

  /** The matches drawn from pairs that repeat nobody repeat nobody, and add nobody. */
  lemma MatchesDisjoint(active: seq<Team>, courts: int)
    requires Distinct(Flatten(active))
    ensures Distinct(Lineup(Matches(active, courts)))
    ensures forall x :: x in Lineup(Matches(active, courts)) ==> x in Flatten(active)
  {
    var ms := Matches(active, courts);
    var c := |ms|;
    MatchesTeams(active, courts);
    assert active == active[..2 * c] + active[2 * c..];
    FlattenAppend(active[..2 * c], active[2 * c..]);
    assert Lineup(ms) == Flatten(active[..2 * c]);
    assert Lineup(ms) + Flatten(active[2 * c..]) + [] == Flatten(active);
    DistinctDrop(Lineup(ms), Flatten(active[2 * c..]), []);
    assert Lineup(ms) + [] == Lineup(ms);
  }

  /**
   * In every round of a roster without repeated names, nobody plays on two
   * courts or twice in one match, the resting player plays on no court, and
   * everyone on court is on the roster.
   */
  lemma OnCourtDisjoint(names: seq<string>, courts: int, r: int)
    requires Distinct(names) && ByeSlot !in names && 0 <= r < |FullSchedule(names, courts)|
    ensures var round := FullSchedule(names, courts)[r];
      && Distinct(Lineup(round.matches))
      && (round.bye.Some? ==> round.bye.value !in Lineup(round.matches))
      && forall x :: x in Lineup(round.matches) ==> x in names
  {
    ScheduleAt(names, courts, r);
    var split := ActiveDisjoint(names, r);
    MatchesDisjoint(split.active, courts);
    forall x | x in Lineup(Matches(split.active, courts))
      ensures x in names
    {
      ActiveOnRoster(names, r, x);
    }
  }
}
