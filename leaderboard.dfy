/**
 * The standings screen (components/leaderboard.tsx): the ranking of the
 * players, the winner banner of a finished tournament, the grouping of the
 * match history by round and the set of expanded rounds.
 */
module Leaderboard {
  import opened Wrappers
  import opened Tournament

  /** Games won minus games lost, the second ranking key. */
  function Diff(p: Player): int {
    p.gamesFor - p.gamesAgainst
  }

  /**
   * The comparator handed to `sort`: negative when `a` ranks above `b`,
   * positive when below, zero on a full tie.
   */
  function Compare(a: Player, b: Player): int {
    if b.wins != a.wins then b.wins - a.wins
    else if Diff(b) != Diff(a) then Diff(b) - Diff(a)
    else b.gamesFor - a.gamesFor
  }

  /** `a` may stand before `b`: more wins, or as many and a better difference, or both equal and at least as many games won. */
  predicate RanksAtLeast(a: Player, b: Player) {
    a.wins > b.wins
    || (a.wins == b.wins && Diff(a) > Diff(b))
    || (a.wins == b.wins && Diff(a) == Diff(b) && a.gamesFor >= b.gamesFor)
  }

  lemma CompareMeaning(a: Player, b: Player)
    ensures Compare(a, b) <= 0 <==> RanksAtLeast(a, b)
    ensures Compare(b, a) == -Compare(a, b)
  {
  }

  lemma CompareTransitive(a: Player, b: Player, c: Player)
    requires Compare(a, b) <= 0 && Compare(b, c) <= 0
    ensures Compare(a, c) <= 0
  {
    CompareMeaning(a, b);
    CompareMeaning(b, c);
    CompareMeaning(a, c);
  }

  /** No player stands before one that ranks strictly above it. */
  predicate Ranked(s: seq<Player>) {
    forall i, j :: 0 <= i < j < |s| ==> Compare(s[i], s[j]) <= 0
  }

  /** Places `p` before the first player it ranks at least as high as. */
  function Insert(p: Player, s: seq<Player>): (r: seq<Player>)
    ensures multiset(r) == multiset(s) + multiset{p}
  {
    if s == [] || Compare(p, s[0]) <= 0 then
      [p] + s
    else
      assert s == [s[0]] + s[1..];
      [s[0]] + Insert(p, s[1..])
  }

  /** `x` ranks at least as high as every player of `s`. */
  predicate Leads(x: Player, s: seq<Player>) {
    forall k :: 0 <= k < |s| ==> Compare(x, s[k]) <= 0
  }

  lemma {:induction false} InsertLeads(x: Player, p: Player, s: seq<Player>)
    requires Leads(x, s) && Compare(x, p) <= 0
    ensures Leads(x, Insert(p, s))
  {
    if s != [] && Compare(p, s[0]) > 0 {
      InsertLeads(x, p, s[1..]);
    }
  }

  lemma RankedCons(x: Player, s: seq<Player>)
    requires Leads(x, s) && Ranked(s)
    ensures Ranked([x] + s)
  {
    var r := [x] + s;
    forall i, j | 0 <= i < j < |r| ensures Compare(r[i], r[j]) <= 0 {
      assert r[j] == s[j - 1];
      if i > 0 {
        assert r[i] == s[i - 1];
      }
    }
  }

  lemma {:induction false} InsertRanked(p: Player, s: seq<Player>)
    requires Ranked(s)
    ensures Ranked(Insert(p, s))
  {
    if s == [] {
    } else if Compare(p, s[0]) <= 0 {
      forall k | 0 <= k < |s| ensures Compare(p, s[k]) <= 0 {
        if k > 0 { CompareTransitive(p, s[0], s[k]); }
      }
      RankedCons(p, s);
    } else {
      var rest := s[1..];
      assert Ranked(rest);
      InsertRanked(p, rest);
      CompareMeaning(p, s[0]);
      assert Leads(s[0], rest) by {
        forall k | 0 <= k < |rest| ensures Compare(s[0], rest[k]) <= 0 {
          assert rest[k] == s[k + 1];
        }
      }
      InsertLeads(s[0], p, rest);
      RankedCons(s[0], Insert(p, rest));
    }
  }

  /**
   * The `sorted` list: a stable sort of the roster by the comparator
   * (`Array.prototype.sort` is stable), written as an insertion sort.
   */
  function Sorted(players: seq<Player>): (r: seq<Player>)
    ensures multiset(r) == multiset(players)
  {
    if players == [] then []
    else
      assert players == [players[0]] + players[1..];
      Insert(players[0], Sorted(players[1..]))
  }

  lemma {:induction false} SortedRanked(players: seq<Player>)
    ensures Ranked(Sorted(players))
  {
    if players != [] {
      SortedRanked(players[1..]);
      InsertRanked(players[0], Sorted(players[1..]));
    }
  }

  /** The three ranking keys read off a sorted list. */
  lemma SortedOrder(players: seq<Player>, i: int, j: int)
    requires 0 <= i < j < |Sorted(players)|
    ensures Sorted(players)[i].wins >= Sorted(players)[j].wins
    ensures Sorted(players)[i].wins == Sorted(players)[j].wins ==> Diff(Sorted(players)[i]) >= Diff(Sorted(players)[j])
    ensures Sorted(players)[i].wins == Sorted(players)[j].wins && Diff(Sorted(players)[i]) == Diff(Sorted(players)[j])
            ==> Sorted(players)[i].gamesFor >= Sorted(players)[j].gamesFor
  {
    SortedRanked(players);
    CompareMeaning(Sorted(players)[i], Sorted(players)[j]);
  }

  lemma SortedLength(players: seq<Player>)
    ensures |Sorted(players)| == |players|
  {
    assert |multiset(Sorted(players))| == |multiset(players)|;
  }

  /** A list that is already in ranking order comes back unchanged: ties keep their roster order. */
  lemma {:induction false} SortedKeepsRankedList(players: seq<Player>)
    requires Ranked(players)
    ensures Sorted(players) == players
  {
    if players != [] {
      assert Ranked(players[1..]);
      SortedKeepsRankedList(players[1..]);
      if |players| > 1 {
        assert Compare(players[0], players[1]) <= 0;
      }
    }
  }

  /** `[p]` when `p` is tied with `x` on all three keys, otherwise nothing. */
  function TieOf(p: Player, x: Player): seq<Player> {
    if Compare(p, x) == 0 then [p] else []
  }

  /** The players of `s` tied with `x`, in their order in `s`. */
  function Ties(s: seq<Player>, x: Player): seq<Player> {
    if s == [] then [] else TieOf(s[0], x) + Ties(s[1..], x)
  }

  /** `Ties` keeps exactly the players of `s` tied with `x`, as often as `s` holds them. */
  lemma {:induction false} TiesMeaning(s: seq<Player>, x: Player)
    ensures forall p :: multiset(Ties(s, x))[p] == if Compare(p, x) == 0 then multiset(s)[p] else 0
  {
    if s != [] {
      TiesMeaning(s[1..], x);
      assert s == [s[0]] + s[1..];
    }
  }

  /** The tied players of a list with one player in front. */
  lemma TiesCons(q: Player, s: seq<Player>, x: Player)
    ensures Ties([q] + s, x) == TieOf(q, x) + Ties(s, x)
  {
    var r := [q] + s;
    assert r[0] == q && r[1..] == s;
  }

  /** Two players that are not tied with each other are never both tied with `x`, so their tie lists commute. */
  lemma SwapTies(p: Player, q: Player, tail: seq<Player>, x: Player)
    requires Compare(p, q) != 0
    ensures TieOf(q, x) + (TieOf(p, x) + tail) == TieOf(p, x) + (TieOf(q, x) + tail)
  {
    if TieOf(p, x) == [] {
      assert TieOf(p, x) + tail == tail;
    } else if TieOf(q, x) == [] {
      assert TieOf(q, x) + tail == tail;
    } else {
      assert false;
    }
  }

  /** Inserting `p` puts it ahead of every player it is tied with. */
  lemma {:induction false} InsertTies(p: Player, s: seq<Player>, x: Player)
    ensures Ties(Insert(p, s), x) == TieOf(p, x) + Ties(s, x)
  {
    if s == [] || Compare(p, s[0]) <= 0 {
      TiesCons(p, s, x);
    } else {
      var q, rest := s[0], s[1..];
      var ins := Insert(p, rest);
      assert Insert(p, s) == [q] + ins;
      TiesCons(q, ins, x);
      InsertTies(p, rest, x);
      SwapTies(p, q, Ties(rest, x), x);
    }
  }

  /** The sort is stable: the players tied with any `x` keep their roster order. */
  lemma {:induction false} SortedStable(players: seq<Player>, x: Player)
    ensures Ties(Sorted(players), x) == Ties(players, x)
  {
    if players != [] {
      SortedStable(players[1..], x);
      InsertTies(players[0], Sorted(players[1..]), x);
    }
  }

  /** The head of the sorted list is a roster player who ranks at least as high as everyone. */
  lemma SortedHeadLeads(players: seq<Player>)
    requires |players| > 0
    ensures |Sorted(players)| > 0 && Sorted(players)[0] in players
    ensures forall p :: p in players ==> RanksAtLeast(Sorted(players)[0], p)
  {
    SortedLength(players);
    SortedRanked(players);
    var sorted := Sorted(players);
    assert sorted[0] in multiset(players);
    forall p | p in players ensures RanksAtLeast(sorted[0], p) {
      assert p in multiset(sorted);
      var k :| 0 <= k < |sorted| && sorted[k] == p;
      CompareMeaning(sorted[0], sorted[k]);
    }
  }

  /** The winner banner: shown only on the final standings of a non-empty roster, naming the first ranked player. */
  function Winner(players: seq<Player>, isFinal: bool): (w: Option<Player>)
    ensures w.Some? <==> isFinal && |players| > 0
    ensures w.Some? ==> w.value in players && forall p :: p in players ==> RanksAtLeast(w.value, p)
  {
    SortedLength(players);
    var sorted := Sorted(players);
    if isFinal && |sorted| > 0 then
      SortedHeadLeads(players);
      Some(sorted[0])
    else
      None
  }

  /** The history entries of round `rn`, in history order. */
  function InRound(history: seq<MatchResult>, rn: int): (r: seq<MatchResult>)
    ensures |r| <= |history|
  {
    if history == [] then []
    else
      var last := history[|history| - 1];
      InRound(history[..|history| - 1], rn) + (if last.roundNumber == rn then [last] else [])
  }

  /** The round numbers that occur in the history. */
  function RoundsIn(history: seq<MatchResult>): set<int> {
    if history == [] then {}
    else RoundsIn(history[..|history| - 1]) + {history[|history| - 1].roundNumber}
  }

  lemma {:induction false} RoundsInMeaning(history: seq<MatchResult>, rn: int)
    ensures rn in RoundsIn(history) <==> exists e :: e in history && e.roundNumber == rn
  {
    if history != [] {
      var pre := history[..|history| - 1];
      assert history == pre + [history[|history| - 1]];
      RoundsInMeaning(pre, rn);
    }
  }

  lemma {:induction false} InRoundEmpty(history: seq<MatchResult>, rn: int)
    requires rn !in RoundsIn(history)
    ensures InRound(history, rn) == []
  {
    if history != [] {
      InRoundEmpty(history[..|history| - 1], rn);
    }
  }

  /** Every grouped entry carries its group's round number. */
  lemma {:induction false} InRoundOnlyRound(history: seq<MatchResult>, rn: int)
    ensures forall e :: e in InRound(history, rn) ==> e.roundNumber == rn
  {
    if history != [] {
      InRoundOnlyRound(history[..|history| - 1], rn);
    }
  }

  /** Nothing is lost or duplicated: an entry of round `rn` occurs in the group as often as in the history. */
  lemma {:induction false} InRoundKeepsAll(history: seq<MatchResult>, e: MatchResult)
    ensures multiset(InRound(history, e.roundNumber))[e] == multiset(history)[e]
  {
    if history != [] {
      var pre := history[..|history| - 1];
      assert history == pre + [history[|history| - 1]];
      InRoundKeepsAll(pre, e);
    }
  }

  /** Grouping splits over concatenation, so each group keeps history order. */
  lemma {:induction false} InRoundAppend(a: seq<MatchResult>, b: seq<MatchResult>, rn: int)
    ensures InRound(a + b, rn) == InRound(a, rn) + InRound(b, rn)
  {
    if b != [] {
      var pre := b[..|b| - 1];
      assert (a + b)[..|a + b| - 1] == a + pre;
      InRoundAppend(a, pre, rn);
    } else {
      assert a + b == a;
    }
  }

  /** `roundGroups`: the history reduced into one list per round number. */
  method GroupByRound(history: seq<MatchResult>) returns (groups: map<int, seq<MatchResult>>)
    ensures groups.Keys == RoundsIn(history)
    ensures forall rn :: rn in groups ==> groups[rn] == InRound(history, rn)
  {
    groups := map[];
    for k := 0 to |history|
      invariant groups.Keys == RoundsIn(history[..k])
      invariant forall rn :: rn in groups ==> groups[rn] == InRound(history[..k], rn)
    {
      var result := history[k];
      assert history[..k + 1][..k] == history[..k];
      if result.roundNumber !in groups {
        InRoundEmpty(history[..k], result.roundNumber);
        groups := groups[result.roundNumber := []];
      }
      groups := groups[result.roundNumber := groups[result.roundNumber] + [result]];
    }
    assert history[..|history|] == history;
  }

  lemma MaxWith(rest: set<int>, y: int, m: int)
    requires m in rest && forall x :: x in rest ==> x <= m
    ensures exists top :: top in rest + {y} && forall x :: x in rest + {y} ==> x <= top
  {
    var top := if m < y then y else m;
    assert top in rest + {y};
    forall x | x in rest + {y} ensures x <= top {
      if x != y {
        assert x in rest;
      }
    }
  }

  /** A set of round numbers holding `y` has a largest element. */
  lemma {:induction false} MaxExists(s: set<int>, y: int)
    requires y in s
    ensures exists m :: m in s && forall x :: x in s ==> x <= m
    decreases |s|
  {
    var rest := s - {y};
    assert s == rest + {y};
    if rest == {} {
      assert s == {y};
    } else {
      assert (forall x :: x !in rest) ==> rest == {};
      var z :| z in rest;
      MaxExists(rest, z);
      var m :| m in rest && forall x :: x in rest ==> x <= m;
      MaxWith(rest, y, m);
    }
  }

  function Largest(keys: set<int>): (m: int)
    requires keys != {}
    ensures m in keys && forall x :: x in keys ==> x <= m
  {
    assert (forall x :: x !in keys) ==> keys == {};
    var y :| y in keys;
    MaxExists(keys, y);
    var m :| m in keys && forall x :: x in keys ==> x <= m;
    m
  }

  /** Strictly descending. */
  predicate Descending(r: seq<int>) {
    forall i, j :: 0 <= i < j < |r| ==> r[i] > r[j]
  }

  lemma ConsDescending(m: int, rest: seq<int>)
    requires Descending(rest) && forall rn :: rn in rest ==> rn < m
    ensures Descending([m] + rest)
  {
    var r := [m] + rest;
    forall i, j | 0 <= i < j < |r| ensures r[i] > r[j] {
      assert r[j] == rest[j - 1] && rest[j - 1] in rest;
      if i > 0 {
        assert r[i] == rest[i - 1];
      }
    }
  }

  /** `roundNumbers`: the keys of the groups, numeric, largest first. */
  function RoundNumbers(keys: set<int>): (r: seq<int>)
    ensures forall rn :: rn in r <==> rn in keys
    ensures Descending(r)
    decreases |keys|
  {
    if keys == {} then []
    else
      var m := Largest(keys);
      var rest := RoundNumbers(keys - {m});
      ConsDescending(m, rest);
      [m] + rest
  }

  /** The round numbers listed are exactly those present in the history, in strictly descending order. */
  lemma RoundNumbersOfHistory(history: seq<MatchResult>, groups: map<int, seq<MatchResult>>, rn: int)
    requires groups.Keys == RoundsIn(history)
    ensures rn in RoundNumbers(groups.Keys) <==> exists e :: e in history && e.roundNumber == rn
  {
    RoundsInMeaning(history, rn);
  }

  /** The set of expanded rounds after `toggleRound(rn)`. */
  function Toggled(expanded: set<int>, rn: int): (r: set<int>)
    ensures rn in r <==> rn !in expanded
    ensures forall x :: x != rn ==> (x in r <==> x in expanded)
  {
    if rn in expanded then expanded - {rn} else expanded + {rn}
  }

  /** Toggling the same round twice restores the set. */
  lemma ToggleTwice(expanded: set<int>, rn: int)
    ensures Toggled(Toggled(expanded, rn), rn) == expanded
  {
  }

  /** The accordion state of the history list. */
  class Accordion {
    var expanded: set<int>

    constructor ()
      ensures expanded == {}
    {
      expanded := {};
    }

    method ToggleRound(rn: int)
      modifies this
      ensures expanded == Toggled(old(expanded), rn)
    {
      var next := expanded;
      if rn in next {
        next := next - {rn};
      } else {
        next := next + {rn};
      }
      expanded := next;
    }
  }
}
