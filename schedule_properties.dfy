/**
 * What `generateFullSchedule` (lib/tournament.ts:100-180) promises, proved
 * about the specification `Schedule.FullSchedule`:
 *
 *  - the shape of the schedule (round count and numbering, matches per round,
 *    court numbers and fresh scores);
 *  - the fold pairs of a round are pairwise disjoint and cover the padded
 *    roster;
 *  - byes: none for an even roster; for an odd one the bye of round r is a
 *    fixed function of r, and every player sits out exactly once;
 *  - partners: two different players share a fold pair in exactly one round
 *    (the doc comment at lib/tournament.ts:97-98), and hence never form a
 *    team in two different rounds' matches.
 *
 * The arithmetic behind the last two points is in `CircleMethod`; this module
 * connects it to the sequences the scheduler builds.
 */
module ScheduleProperties {
  import opened Wrappers
  import opened Tournament
  import opened CircleMethod
  import opened Schedule

  // ---------------------------------------------------------------------------
  // Rotation and orderings.

  /** `(a mod n + b) mod n == (a + b) mod n`. */
  lemma ModShift(n: int, a: int, b: int)
    requires n > 0
    ensures (a % n + b) % n == (a + b) % n
  {
    assert ((a + b) / n - a / n) * n == (a + b) / n * n - a / n * n;
    ModUnique(n, a % n + b, (a + b) / n - a / n, (a + b) % n);
  }

  /** Entry j of the rotated sequence is the entry just before j, cyclically. */
  lemma RotateRightAt<T>(t: seq<T>, j: int)
    requires 0 <= j < |t|
    ensures RotateRight(t)[j] == t[(j - 1) % |t|]
  {
    if j == 0 {
      ModUnique(|t|, -1, -1, |t| - 1);
    } else {
      ModUnique(|t|, j - 1, 0, j - 1);
    }
  }

  /** After r rotations, entry j is the entry r places before j, cyclically. */
  lemma {:induction false} RotatedAt<T>(s: seq<T>, r: nat, j: int)
    requires 0 <= j < |s|
    ensures Rotated(s, r)[j] == s[(j - r) % |s|]
  {
    var n := |s|;
    if r == 0 {
      assert Rotated(s, r) == s;
      ModUnique(n, j, 0, j);
    } else {
      var prev := Rotated(s, r - 1);
      assert Rotated(s, r) == RotateRight(prev);
      RotateRightAt(prev, j);
      var j' := (j - 1) % n;
      RotatedAt(s, r - 1, j');
      ModStep(n, j, r);
    }
  }

  /** One more rotation moves the source index one more place back. */
  lemma ModStep(n: int, j: int, r: int)
    requires n > 0
    ensures ((j - 1) % n - (r - 1)) % n == (j - r) % n
  {
    ModShift(n, j - 1, -(r - 1));
  }

  /**
   * Position p of the ordering of round r holds list index Slot(m, r, p),
   * m being the ribbon length: the fixed entry stays at 0 and the ribbon
   * index moves one place right per round.
   */
  lemma OrderingAt(list: seq<string>, r: nat, p: int)
    requires |list| >= 2 && 0 <= p < |list|
    ensures Ordering(list, r)[p] == list[Slot(|list| - 1, r, p)]
  {
    if p > 0 {
      RotatedAt(list[1..], r, p - 1);
    }
  }

  /** Fold pair i of round r holds the list entries at Slot(m, r, i) and Slot(m, r, m - i). */
  lemma RoundPairsAt(list: seq<string>, r: nat, i: int)
    requires |list| >= 2 && 0 <= i < |list| / 2
    ensures var m := |list| - 1;
      RoundPairs(list, r)[i] == (list[Slot(m, r, i)], list[Slot(m, r, m - i)])
  {
    OrderingAt(list, r, i);
    OrderingAt(list, r, |list| - 1 - i);
  }

  /** Rotating permutes. */
  lemma RotateRightPermutation<T>(s: seq<T>)
    ensures multiset(RotateRight(s)) == multiset(s)
  {
    if s != [] {
      assert s == s[..|s| - 1] + [s[|s| - 1]];
    }
  }

  /** Rotating r times permutes: it is a cut of the ribbon with the halves swapped. */
  lemma RotatedPermutation<T>(s: seq<T>, r: nat)
    ensures multiset(Rotated(s, r)) == multiset(s)
  {
    if s != [] {
      var k := RotatedSplit(s, r);
      assert s == s[..k] + s[k..];
    }
  }

  /** After r rotations the ribbon reads from position (-r) mod n onwards, then wraps. */
  lemma RotatedSplit<T>(s: seq<T>, r: nat) returns (k: int)
    requires s != []
    ensures 0 <= k < |s| && Rotated(s, r) == s[k..] + s[..k]
  {
    var n := |s|;
    var back: int := 0 - r;
    k := back % n;
    var t := s[k..] + s[..k];
    forall j | 0 <= j < n
      ensures Rotated(s, r)[j] == t[j]
    {
      RotatedAt(s, r, j);
      ModShift(n, back, j);
      assert back + j == j - r;
      if j < n - k {
        ModUnique(n, k + j, 0, k + j);
        assert t[j] == s[k + j];
      } else {
        ModUnique(n, k + j, 1, k + j - n);
        assert t[j] == s[k + j - n];
      }
    }
  }

  /** Every round's ordering is a permutation of the padded list. */
  lemma OrderingPermutation(list: seq<string>, r: nat)
    requires |list| > 0
    ensures multiset(Ordering(list, r)) == multiset(list)
  {
    RotatedPermutation(list[1..], r);
    assert list == [list[0]] + list[1..];
  }

  // ---------------------------------------------------------------------------
  // Distinctness through multisets.

  lemma {:induction false} DistinctCount<T>(s: seq<T>, x: T)
    requires Distinct(s)
    ensures multiset(s)[x] <= 1
  {
    if s != [] {
      assert s == [s[0]] + s[1..];
      assert Distinct(s[1..]) by {
        forall i, j | 0 <= i < j < |s| - 1
          ensures s[1..][i] != s[1..][j]
        {
          assert s[1..][i] == s[i + 1] && s[1..][j] == s[j + 1];
        }
      }
      DistinctCount(s[1..], x);
    }
  }

  lemma RepeatCount<T>(s: seq<T>, i: int, j: int)
    requires 0 <= i < j < |s| && s[i] == s[j]
    ensures multiset(s)[s[i]] >= 2
  {
    assert s == s[..j] + s[j..];
    assert s[i] == s[..j][i];
    assert s[j] == s[j..][0];
  }

  /** A permutation of a sequence without repeats has none either. */
  lemma DistinctPermutation<T>(a: seq<T>, b: seq<T>)
    requires multiset(a) == multiset(b) && Distinct(b)
    ensures Distinct(a)
  {
    forall i, j | 0 <= i < j < |a|
      ensures a[i] != a[j]
    {
      if a[i] == a[j] {
        RepeatCount(a, i, j);
        DistinctCount(b, a[i]);
      }
    }
  }

  // ---------------------------------------------------------------------------
  // The fold pairs of a round partition the padded list.

  /** The members of a list of pairs, pair by pair. */
  lemma {:induction false} FlattenAt<T>(pairs: seq<(T, T)>, i: int)
    requires 0 <= i < |pairs|
    ensures Flatten(pairs)[2 * i] == pairs[i].0 && Flatten(pairs)[2 * i + 1] == pairs[i].1
  {
    if i > 0 {
      FlattenAt(pairs[1..], i - 1);
    }
  }

  /** Folding an even ordering takes its two ends, then folds the middle. */
  lemma FoldPairsPeel<T>(cur: seq<T>)
    requires |cur| >= 2
    ensures FoldPairs(cur) == [(cur[0], cur[|cur| - 1])] + FoldPairs(cur[1..|cur| - 1])
  {
    var mid := cur[1..|cur| - 1];
    assert forall i :: 0 <= i < |mid| / 2 ==> FoldPairs(mid)[i] == FoldPairs(cur)[i + 1];
  }

  lemma FlattenCons<T>(p: (T, T), rest: seq<(T, T)>)
    ensures Flatten([p] + rest) == [p.0, p.1] + Flatten(rest)
  {
    assert ([p] + rest)[1..] == rest;
  }

  /** A sequence holding both ends of `cur` and a permutation of its middle is a permutation of `cur`. */
  lemma EndsAndMiddle<T>(cur: seq<T>, a: seq<T>, b: seq<T>)
    requires |cur| >= 2 && a == [cur[0], cur[|cur| - 1]] + b && multiset(b) == multiset(cur[1..|cur| - 1])
    ensures multiset(a) == multiset(cur)
  {
    assert cur == [cur[0]] + cur[1..|cur| - 1] + [cur[|cur| - 1]];
  }

  /** The fold pairs of an even ordering hold each of its entries once. */
  lemma {:induction false} FoldPairsCover<T>(cur: seq<T>)
    requires |cur| % 2 == 0
    decreases |cur|
    ensures multiset(Flatten(FoldPairs(cur))) == multiset(cur)
  {
    if |cur| > 0 {
      var n := |cur|;
      var mid := cur[1..n - 1];
      var ends := [cur[0], cur[n - 1]];
      assert Flatten(FoldPairs(cur)) == ends + Flatten(FoldPairs(mid)) by {
        FoldPairsPeel(cur);
        FlattenCons((cur[0], cur[n - 1]), FoldPairs(mid));
      }
      FoldPairsCover(mid);
      EndsAndMiddle(cur, Flatten(FoldPairs(cur)), Flatten(FoldPairs(mid)));
    }
  }

  /** Every entry of the padded list is in exactly one fold pair of each round. */
  lemma RoundCover(list: seq<string>, r: nat)
    requires |list| > 0 && |list| % 2 == 0
    ensures multiset(Flatten(RoundPairs(list, r))) == multiset(list)
  {
    OrderingPermutation(list, r);
    FoldPairsCover(Ordering(list, r));
  }

  /** With no repeated names, the fold pairs of a round share no member. */
  lemma RoundDisjoint(list: seq<string>, r: nat)
    requires |list| > 0 && |list| % 2 == 0 && Distinct(list)
    ensures Distinct(Flatten(RoundPairs(list, r)))
  {
    RoundCover(list, r);
    DistinctPermutation(Flatten(RoundPairs(list, r)), list);
  }

  // ---------------------------------------------------------------------------
  // The shape of the schedule.

  /** Round k of the schedule is round k of the padded list. */
  lemma ScheduleAt(names: seq<string>, courts: int, r: int)
    requires 0 <= r < |FullSchedule(names, courts)|
    ensures |Padded(names)| >= 2 && r < |Padded(names)| - 1
    ensures var split := SplitBye(RoundPairs(Padded(names), r));
      FullSchedule(names, courts)[r] == Round(r + 1, Matches(split.active, courts), split.bye)
  {
  }

  /**
   * n - 1 rounds for an even roster, n for an odd one (the sentinel makes it
   * even), none for an empty one; round k is numbered k + 1.
   */
  lemma ScheduleShape(names: seq<string>, courts: int)
    ensures |FullSchedule(names, courts)| ==
      if names == [] then 0 else if |names| % 2 == 0 then |names| - 1 else |names|
    ensures forall k :: 0 <= k < |FullSchedule(names, courts)| ==> FullSchedule(names, courts)[k].roundNumber == k + 1
  {
    forall k | 0 <= k < |FullSchedule(names, courts)|
      ensures FullSchedule(names, courts)[k].roundNumber == k + 1
    {
      ScheduleAt(names, courts, k);
    }
  }

  // ---------------------------------------------------------------------------
  // Byes.

  /** With no sentinel in any pair, the scan finds no bye and keeps every pair. */
  lemma {:induction false} SplitByeClean(pairs: seq<Team>)
    requires forall i :: 0 <= i < |pairs| ==> Clean(pairs[i])
    ensures SplitBye(pairs) == Split(None, pairs)
  {
    if pairs != [] {
      var n := |pairs|;
      SplitByeClean(pairs[..n - 1]);
      assert pairs[..n - 1] + [pairs[n - 1]] == pairs;
    }
  }

  /** With the sentinel in pair i only, its partner is the bye and the other pairs stay, in order. */
  lemma {:induction false} SplitByeOne(pairs: seq<Team>, i: int)
    requires OnlyByeAt(pairs, i)
    ensures SplitBye(pairs) == Split(Some(Partner(pairs[i])), pairs[..i] + pairs[i + 1..])
  {
    var n := |pairs|;
    var init := pairs[..n - 1];
    if i == n - 1 {
      SplitByeClean(init);
      assert pairs[..i] + pairs[i + 1..] == init;
    } else {
      var p := pairs[n - 1];
      assert Clean(p);
      assert OnlyByeAt(init, i) by {
        forall j | 0 <= j < |init| && j != i
          ensures Clean(init[j])
        {
          assert init[j] == pairs[j];
        }
      }
      SplitByeOne(init, i);
      assert init[i] == pairs[i];
      assert SplitBye(pairs) == Split(SplitBye(init).bye, SplitBye(init).active + [p]);
      DropThenAppend(pairs, i);
    }
  }

  /** Removing entry i before or after dropping the last entry gives the same sequence. */
  lemma DropThenAppend<T>(s: seq<T>, i: int)
    requires 0 <= i < |s| - 1
    ensures s[..|s| - 1][..i] + s[..|s| - 1][i + 1..] + [s[|s| - 1]] == s[..i] + s[i + 1..]
  {
  }

  /** In an even roster without the sentinel, every fold pair is two real players. */
  lemma EvenPairsClean(names: seq<string>, r: nat)
    requires |names| >= 2 && |names| % 2 == 0 && ByeSlot !in names
    ensures forall i :: 0 <= i < |RoundPairs(names, r)| ==> Clean(RoundPairs(names, r)[i])
  {
    var m := |names| - 1;
    forall i | 0 <= i < |RoundPairs(names, r)|
      ensures Clean(RoundPairs(names, r)[i])
    {
      RoundPairsAt(names, r, i);
      SlotRange(m, r, i);
      SlotRange(m, r, m - i);
    }
  }

  /** All fold pairs of round r, as slots of the list. */
  lemma SlotPairs(list: seq<string>, r: nat)
    requires |list| >= 2
    ensures |RoundPairs(list, r)| == |list| / 2
    ensures var m := |list| - 1;
      forall j :: 0 <= j < |list| / 2 ==> RoundPairs(list, r)[j] == (list[Slot(m, r, j)], list[Slot(m, r, m - j)])
  {
    forall j | 0 <= j < |list| / 2
      ensures RoundPairs(list, r)[j] == (list[Slot(|list| - 1, r, j)], list[Slot(|list| - 1, r, |list| - 1 - j)])
    {
      RoundPairsAt(list, r, j);
    }
  }

  /**
   * In an odd roster, the sentinel sits at list index m = n; in round r it
   * is paired with list index ByeIndex(m, r), and no other pair holds it.
   */
  lemma OddPairsBye(names: seq<string>, r: nat) returns (i: int)
    requires |names| % 2 == 1 && ByeSlot !in names && r < |names|
    ensures OnlyByeAt(RoundPairs(Padded(names), r), i)
    ensures 0 <= ByeIndex(|names|, r) < |names| && Partner(RoundPairs(Padded(names), r)[i]) == names[ByeIndex(|names|, r)]
  {
    var list := Padded(names);
    assert list == names + [ByeSlot] && |list| - 1 == |names|;
    SlotPairs(list, r);
    i := SlotPairsBye(names, list, RoundPairs(list, r), r);
  }

  /** `OddPairsBye` for any pairs laid out as the fold pairs of round r. */
  lemma SlotPairsBye(names: seq<string>, list: seq<string>, pairs: seq<Team>, r: nat) returns (i: int)
    requires |names| % 2 == 1 && ByeSlot !in names && r < |names| && list == names + [ByeSlot]
    requires |pairs| == |list| / 2
    requires forall j :: 0 <= j < |list| / 2 ==>
      pairs[j] == (list[Slot(|names|, r, j)], list[Slot(|names|, r, |names| - j)])
    ensures OnlyByeAt(pairs, i)
    ensures 0 <= ByeIndex(|names|, r) < |names| && Partner(pairs[i]) == names[ByeIndex(|names|, r)]
  {
    var m := |names|;
    var b := ByeIndex(m, r);
    ByeIndexPartners(m, r);
    ByeIndexRange(m, r);
    i :| PairAt(m, r, i, m, b);
    assert list[m] == ByeSlot && list[b] == names[b] && names[b] != ByeSlot;
    SentinelPair(pairs[i], names[b]);
    forall j | 0 <= j < |pairs| && j != i
      ensures Clean(pairs[j])
    {
      SlotRange(m, r, j);
      SlotRange(m, r, m - j);
      SlotElsewhere(m, r, i, j, m);
    }
  }

  /** A pair of the sentinel and a real player, in either order. */
  lemma SentinelPair(t: Team, x: string)
    requires t == (ByeSlot, x) || t == (x, ByeSlot)
    requires x != ByeSlot
    ensures (t.0 == ByeSlot) != (t.1 == ByeSlot) && Partner(t) == x
  {
  }

  /** Even roster: no round has a bye, and every fold pair is in play. */
  lemma ByeEven(names: seq<string>, courts: int, r: int)
    requires |names| % 2 == 0 && ByeSlot !in names && 0 <= r < |FullSchedule(names, courts)|
    ensures FullSchedule(names, courts)[r].bye == None
    ensures FullSchedule(names, courts)[r].matches == Matches(RoundPairs(names, r), courts)
  {
    ScheduleAt(names, courts, r);
    EvenPairsClean(names, r);
    SplitByeClean(RoundPairs(names, r));
  }

  /** Odd roster: round r's bye is the player at index ByeIndex(n, r). */
  lemma ByeOdd(names: seq<string>, courts: int, r: int)
    requires |names| % 2 == 1 && ByeSlot !in names && 0 <= r < |FullSchedule(names, courts)|
    ensures 0 <= ByeIndex(|names|, r) < |names| && FullSchedule(names, courts)[r].bye == Some(names[ByeIndex(|names|, r)])
  {
    ScheduleAt(names, courts, r);
    var i := OddPairsBye(names, r);
    SplitByeOne(RoundPairs(Padded(names), r), i);
  }

  /** Odd roster: every player sits out in some round. */
  lemma ByeEveryone(names: seq<string>, courts: int, u: int)
    requires |names| % 2 == 1 && ByeSlot !in names && 0 <= u < |names|
    ensures exists r :: 0 <= r < |FullSchedule(names, courts)| && FullSchedule(names, courts)[r].bye == Some(names[u])
  {
    ScheduleShape(names, courts);
    ByeIndexOnto(|names|, u);
    var r :| 0 <= r < |names| && ByeIndex(|names|, r) == u;
    ByeOdd(names, courts, r);
  }

  /** Odd roster of different names: nobody sits out twice. */
  lemma ByeOnce(names: seq<string>, courts: int, r1: int, r2: int)
    requires |names| % 2 == 1 && ByeSlot !in names && Distinct(names)
    requires 0 <= r1 < |FullSchedule(names, courts)| && 0 <= r2 < |FullSchedule(names, courts)|
    requires FullSchedule(names, courts)[r1].bye == FullSchedule(names, courts)[r2].bye
    ensures r1 == r2
  {
    ScheduleShape(names, courts);
    ByeOdd(names, courts, r1);
    ByeOdd(names, courts, r2);
    ByeIndexRange(|names|, r1);
    ByeIndexRange(|names|, r2);
    ByeIndexInjective(|names|, r1, r2);
  }

  /** The scan keeps only pairs of real players, taken from its input. */
  lemma {:induction false} SplitByeActive(pairs: seq<Team>)
    ensures forall t :: t in SplitBye(pairs).active ==> t in pairs && Clean(t)
  {
    if pairs != [] {
      var n := |pairs|;
      SplitByeActive(pairs[..n - 1]);
      assert forall t :: t in pairs[..n - 1] ==> t in pairs;
    }
  }

  /** Every round leaves floor(n / 2) pairs in play. */
  lemma ActiveCount(names: seq<string>, r: int)
    requires ByeSlot !in names && names != [] && 0 <= r < |Padded(names)| - 1
    ensures |SplitBye(RoundPairs(Padded(names), r)).active| == |names| / 2
  {
    var pairs := RoundPairs(Padded(names), r);
    if |names| % 2 == 0 {
      EvenPairsClean(names, r);
      SplitByeClean(pairs);
    } else {
      var i := OddPairsBye(names, r);
      SplitByeOne(pairs, i);
    }
  }

  /**
   * Round r has min(courts, floor(n / 4)) matches, none when courts <= 0;
   * they are on courts 1, 2, ... in order, with scores 0-0 and not submitted.
   */
  lemma MatchesShape(names: seq<string>, courts: int, r: int)
    requires ByeSlot !in names && 0 <= r < |FullSchedule(names, courts)|
    ensures var ms := FullSchedule(names, courts)[r].matches;
      && |ms| == (if courts <= 0 then 0 else if courts < |names| / 4 then courts else |names| / 4)
      && forall t :: 0 <= t < |ms| ==> ms[t].court == t + 1 && ms[t].score1 == 0 && ms[t].score2 == 0 && !ms[t].submitted
  {
    ScheduleAt(names, courts, r);
    var active := SplitBye(RoundPairs(Padded(names), r)).active;
    ActiveCount(names, r);
    MatchesFresh(active, courts);
    assert |active| / 2 == |names| / 4;
  }

  /**
   * Matches and bye need not cover the roster: an even roster of size
   * 4k + 2 has no bye, yet at most 4k of its players are on court, so at
   * least two players sit idle in every round.
   */
  lemma IdlePlayers(names: seq<string>, courts: int, r: int)
    requires ByeSlot !in names && |names| % 4 == 2 && 0 <= r < |FullSchedule(names, courts)|
    ensures FullSchedule(names, courts)[r].bye == None
    ensures 4 * |FullSchedule(names, courts)[r].matches| <= |names| - 2
  {
    MatchesShape(names, courts, r);
    QuarterBound(|names|, 0);
    ByeEven(names, courts, r);
    QuarterBound(|names|, |FullSchedule(names, courts)[r].matches|);
  }

  lemma QuarterBound(n: int, k: int)
    requires n % 4 == 2 && k <= n / 4
    ensures n % 2 == 0 && 4 * k <= n - 2
  {
    var q := n / 4;
    assert n == 4 * q + 2;
    ModUnique(2, n, 2 * q + 1, 0);
  }

  /** The matches of a list of active pairs: how many, and how each starts. */
  lemma MatchesFresh(active: seq<Team>, courts: int)
    ensures var ms := Matches(active, courts);
      && |ms| == (if courts <= 0 then 0 else if courts < |active| / 2 then courts else |active| / 2)
      && forall t :: 0 <= t < |ms| ==> ms[t].court == t + 1 && ms[t].score1 == 0 && ms[t].score2 == 0 && !ms[t].submitted
  {
  }

  /** Team t plays in one of the round's matches. */
  predicate OnCourt(round: Round, t: Team) {
    exists k :: 0 <= k < |round.matches| && (round.matches[k].team1 == t || round.matches[k].team2 == t)
  }

  /** Every team on court is a fold pair of its round, and holds no sentinel. */
  lemma MatchTeamsArePairs(names: seq<string>, courts: int, r: int, t: Team)
    requires 0 <= r < |FullSchedule(names, courts)| && OnCourt(FullSchedule(names, courts)[r], t)
    ensures t in RoundPairs(Padded(names), r) && Clean(t)
  {
    ScheduleAt(names, courts, r);
    var pairs := RoundPairs(Padded(names), r);
    var active := SplitBye(pairs).active;
    var ms := Matches(active, courts);
    assert ms == FullSchedule(names, courts)[r].matches;
    var k :| 0 <= k < |ms| && (ms[k].team1 == t || ms[k].team2 == t);
    MatchAt(active, courts, k);
    assert t in active;
    SplitByeActive(pairs);
  }

  /** Match k takes active pairs 2k and 2k + 1. */
  lemma MatchAt(active: seq<Team>, courts: int, k: int)
    requires 0 <= k < |Matches(active, courts)|
    ensures 2 * k + 1 < |active|
    ensures Matches(active, courts)[k].team1 == active[2 * k] && Matches(active, courts)[k].team2 == active[2 * k + 1]
  {
  }

  // ---------------------------------------------------------------------------
  // Partners.

  /** The same two players, in either order. */
  predicate SameTeam(a: Team, b: Team) {
    (a.0 == b.0 && a.1 == b.1) || (a.0 == b.1 && a.1 == b.0)
  }

  /**
   * In a padded list without repeats, two players share a fold pair in at
   * most one round, and there at one pair index only.
   */
  lemma PartnerOnce(list: seq<string>, r1: int, r2: int, i1: int, i2: int)
    requires |list| >= 2 && |list| % 2 == 0 && Distinct(list)
    requires 0 <= r1 < |list| - 1 && 0 <= r2 < |list| - 1
    requires 0 <= i1 < |list| / 2 && 0 <= i2 < |list| / 2
    requires SameTeam(RoundPairs(list, r1)[i1], RoundPairs(list, r2)[i2])
    ensures r1 == r2 && i1 == i2
  {
    RoundPairsAt(list, r1, i1);
    RoundPairsAt(list, r2, i2);
    SlotPairsOnce(list, r1, r2, i1, i2);
  }

  /** `PartnerOnce`, with the fold pairs written out as slots of the list. */
  lemma SlotPairsOnce(list: seq<string>, r1: int, r2: int, i1: int, i2: int)
    requires |list| >= 2 && |list| % 2 == 0 && Distinct(list)
    requires 0 <= r1 < |list| - 1 && 0 <= r2 < |list| - 1
    requires 0 <= i1 < |list| / 2 && 0 <= i2 < |list| / 2
    requires var m := |list| - 1;
      SameTeam((list[Slot(m, r1, i1)], list[Slot(m, r1, m - i1)]), (list[Slot(m, r2, i2)], list[Slot(m, r2, m - i2)]))
    ensures r1 == r2 && i1 == i2
  {
    var m := |list| - 1;
    SlotRange(m, r1, i1);
    SlotRange(m, r1, m - i1);
    SlotRange(m, r2, i2);
    SlotRange(m, r2, m - i2);
    DistinctIndices(list, Slot(m, r1, i1), Slot(m, r1, m - i1), Slot(m, r2, i2), Slot(m, r2, m - i2));
    PairIndexOnce(m, r1, r2, i1, i2);
  }

  /** Without repeats, equal teams of list entries come from equal positions. */
  lemma DistinctIndices(list: seq<string>, a: int, b: int, c: int, d: int)
    requires Distinct(list)
    requires 0 <= a < |list| && 0 <= b < |list| && 0 <= c < |list| && 0 <= d < |list|
    requires SameTeam((list[a], list[b]), (list[c], list[d]))
    ensures (a == c && b == d) || (a == d && b == c)
  {
  }

  /** Any two positions of a padded list share a fold pair in some round. */
  lemma PartnerSomeRound(list: seq<string>, a: int, b: int) returns (r: nat, i: int)
    requires |list| >= 2 && |list| % 2 == 0
    requires 0 <= a < |list| && 0 <= b < |list| && a != b
    ensures r < |list| - 1 && 0 <= i < |list| / 2 && SameTeam(RoundPairs(list, r)[i], (list[a], list[b]))
  {
    var m := |list| - 1;
    PartnersSomeRound(m, a, b);
    r :| r < m && Partners(m, r, a, b);
    i :| PairAt(m, r, i, a, b);
    RoundPairsAt(list, r, i);
  }

  /** The padded roster repeats no name when the roster repeats none and lacks the sentinel. */
  lemma PaddedDistinct(names: seq<string>)
    requires Distinct(names) && ByeSlot !in names
    ensures Distinct(Padded(names))
  {
    if |names| % 2 == 1 {
      forall i, j | 0 <= i < j < |names| + 1
        ensures Padded(names)[i] != Padded(names)[j]
      {
        assert j < |names| ==> Padded(names)[j] == names[j];
        assert Padded(names)[i] == names[i];
      }
    }
  }

  /**
   * Every two different players of a roster without repeats partner in
   * exactly one round (lib/tournament.ts:97-98); for an odd roster this
   * holds for the fold pairs before the bye pair is set aside.
   */
  lemma PartnersExactlyOnce(names: seq<string>, a: int, b: int) returns (r: nat, i: int)
    requires Distinct(names) && ByeSlot !in names
    requires 0 <= a < |names| && 0 <= b < |names| && a != b
    ensures var list := Padded(names);
      && r < |list| - 1 && 0 <= i < |list| / 2 && SameTeam(RoundPairs(list, r)[i], (names[a], names[b]))
      && forall r', i' :: 0 <= r' < |list| - 1 && 0 <= i' < |list| / 2 && SameTeam(RoundPairs(list, r')[i'], (names[a], names[b]))
           ==> r' == r && i' == i
  {
    var list := Padded(names);
    PaddedDistinct(names);
    r, i := PartnerSomeRound(list, a, b);
    forall r', i' | 0 <= r' < |list| - 1 && 0 <= i' < |list| / 2 && SameTeam(RoundPairs(list, r')[i'], (names[a], names[b]))
      ensures r' == r && i' == i
    {
      PartnerOnce(list, r, r', i, i');
    }
  }

  /** No team of two players takes the court in two different rounds. */
  lemma MatchPartnerOnce(names: seq<string>, courts: int, r1: int, r2: int, t1: Team, t2: Team)
    requires Distinct(names) && ByeSlot !in names
    requires 0 <= r1 < |FullSchedule(names, courts)| && 0 <= r2 < |FullSchedule(names, courts)|
    requires OnCourt(FullSchedule(names, courts)[r1], t1) && OnCourt(FullSchedule(names, courts)[r2], t2)
    requires SameTeam(t1, t2)
    ensures r1 == r2
  {
    var list := Padded(names);
    ScheduleAt(names, courts, r1);
    PaddedDistinct(names);
    MatchTeamsArePairs(names, courts, r1, t1);
    MatchTeamsArePairs(names, courts, r2, t2);
    var i1 :| 0 <= i1 < |list| / 2 && RoundPairs(list, r1)[i1] == t1;
    var i2 :| 0 <= i2 < |list| / 2 && RoundPairs(list, r2)[i2] == t2;
    PartnerOnce(list, r1, r2, i1, i2);
  }

  // ---------------------------------------------------------------------------
  // A hand-checkable trace.

  /**
   * Four players on one court: {A,D} v {B,C}, then {A,C} v {D,B}, then
   * {A,B} v {C,D}, with no byes.
   */
  lemma FourPlayersOneCourt()
    ensures FullSchedule(["A", "B", "C", "D"], 1) == [
      Round(1, [Match(1, ("A", "D"), ("B", "C"), 0, 0, false)], None),
      Round(2, [Match(1, ("A", "C"), ("D", "B"), 0, 0, false)], None),
      Round(3, [Match(1, ("A", "B"), ("C", "D"), 0, 0, false)], None)]
  {
    var names := ["A", "B", "C", "D"];
    assert Padded(names) == names;
    assert Rotated(names[1..], 1) == ["D", "B", "C"];
    assert Rotated(names[1..], 2) == ["C", "D", "B"];
    FourPlayersRound(names, ["A", "B", "C", "D"], 0);
    FourPlayersRound(names, ["A", "D", "B", "C"], 1);
    FourPlayersRound(names, ["A", "C", "D", "B"], 2);
  }

  /** One round of the trace: the ordering is folded and both pairs take court 1. */
  lemma FourPlayersRound(names: seq<string>, cur: seq<string>, r: nat)
    requires names == ["A", "B", "C", "D"] && r < 3 && Ordering(names, r) == cur && |cur| == 4
    requires forall k :: 0 <= k < 4 ==> cur[k] != ByeSlot
    ensures RoundAt(names, 1, r) == Round(r + 1, [Match(1, (cur[0], cur[3]), (cur[1], cur[2]), 0, 0, false)], None)
  {
    var pairs := FoldPairs(cur);
    assert pairs == [(cur[0], cur[3]), (cur[1], cur[2])];
    SplitByeClean(pairs);
  }
}
