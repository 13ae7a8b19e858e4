/**
 * The standings engine: `recalculateStats` in lib/tournament.ts.
 *
 * The roster is copied with every counter reset to zero, then each history
 * entry credits the players named in its two teams. A name is looked up with
 * `find`, so only the FIRST roster record carrying that name is credited and a
 * name missing from the roster credits nobody.
 *
 * The specification is the fold `Replay`; `ReplayAt` gives its closed form
 * (each first record gains the sum of its name's per-entry tallies), from
 * which the order independence and "rebuilt from zero" properties follow.
 */
module Stats {
  import opened Wrappers
  import opened Tournament

  /** Increments to one player's four counters. */
  datatype Tally = Tally(wins: int, losses: int, gamesFor: int, gamesAgainst: int)

  const NoTally := Tally(0, 0, 0, 0)

  function Plus(a: Tally, b: Tally): Tally {
    Tally(a.wins + b.wins, a.losses + b.losses, a.gamesFor + b.gamesFor, a.gamesAgainst + b.gamesAgainst)
  }

  /** A player record with a tally added to its counters. */
  function Credit(p: Player, d: Tally): Player {
    p.(wins := p.wins + d.wins, losses := p.losses + d.losses,
       gamesFor := p.gamesFor + d.gamesFor, gamesAgainst := p.gamesAgainst + d.gamesAgainst)
  }

  /** The roster copy with every counter reset (lib/tournament.ts:41-47). */
  function Zeroed(roster: seq<Player>): (r: seq<Player>)
    ensures |r| == |roster|
    ensures forall k :: 0 <= k < |r| ==> r[k] == Player(roster[k].name, 0, 0, 0, 0)
  {
    seq(|roster|, k requires 0 <= k < |roster| => Player(roster[k].name, 0, 0, 0, 0))
  }

  /**
   * What one side of an entry earns per named player: its own score as games
   * for, the other side's as games against, and a win or a loss unless drawn.
   */
  function SideTally(gamesFor: int, gamesAgainst: int, isDraw: bool, won: bool): Tally {
    Tally(if !isDraw && won then 1 else 0, if !isDraw && !won then 1 else 0, gamesFor, gamesAgainst)
  }

  function Team1Tally(e: MatchResult): Tally {
    SideTally(e.score1, e.score2, e.score1 == e.score2, e.score1 > e.score2)
  }

  function Team2Tally(e: MatchResult): Tally {
    SideTally(e.score2, e.score1, e.score1 == e.score2, !(e.score1 > e.score2))
  }

  /** `Array.prototype.find` by name: the first record with that name, if any. */
  function FindIndex(ps: seq<Player>, name: string): (r: Option<nat>)
    ensures r.Some? ==> r.value < |ps| && ps[r.value].name == name
    ensures r.Some? ==> forall j :: 0 <= j < r.value ==> ps[j].name != name
    ensures r.None? <==> forall j :: 0 <= j < |ps| ==> ps[j].name != name
  {
    if ps == [] then None
    else if ps[0].name == name then Some(0)
    else match FindIndex(ps[1..], name)
      case None => None
      case Some(k) => Some(k + 1)
  }

  /** Credits the record that `find` returns for `name`; an unknown name changes nothing. */
  function CreditName(ps: seq<Player>, name: string, d: Tally): (r: seq<Player>)
    ensures |r| == |ps|
    ensures Names(r) == Names(ps)
  {
    match FindIndex(ps, name)
    case None => ps
    case Some(k) => ps[k := Credit(ps[k], d)]
  }

  /** The `forEach` over a team's names, applied in order (a team may name one player twice). */
  function CreditNames(ps: seq<Player>, names: seq<string>, d: Tally): (r: seq<Player>)
    ensures |r| == |ps|
    ensures Names(r) == Names(ps)
  {
    if names == [] then ps
    else CreditName(CreditNames(ps, names[..|names| - 1], d), names[|names| - 1], d)
  }

  function TeamNames(t: Team): seq<string> {
    [t.0, t.1]
  }

  /** The effect of one history entry (lib/tournament.ts:49-76). */
  function ApplyEntry(ps: seq<Player>, e: MatchResult): (r: seq<Player>)
    ensures |r| == |ps|
    ensures Names(r) == Names(ps)
  {
    CreditNames(CreditNames(ps, TeamNames(e.team1), Team1Tally(e)), TeamNames(e.team2), Team2Tally(e))
  }

  /** The `forEach` over the history, entries applied in order. */
  function Replay(ps: seq<Player>, history: seq<MatchResult>): (r: seq<Player>)
    ensures |r| == |ps|
    ensures Names(r) == Names(ps)
  {
    if history == [] then ps
    else ApplyEntry(Replay(ps, history[..|history| - 1]), history[|history| - 1])
  }

  /** `recalculateStats(history, playerList)` as a value. */
  function Recalculate(history: seq<MatchResult>, roster: seq<Player>): seq<Player> {
    Replay(Zeroed(roster), history)
  }

  // ---------------------------------------------------------------------------
  // Reference definition: what a name earns, entry by entry.

  /** Record k is the one `find` returns for its own name. */
  ghost predicate IsFirst(ps: seq<Player>, k: int)
    requires 0 <= k < |ps|
  {
    forall j :: 0 <= j < k ==> ps[j].name != ps[k].name
  }

  /** Everything one entry credits to the holder of `name`: one side tally per occurrence. */
  function EntryTally(e: MatchResult, name: string): Tally {
    Plus(TeamTally(e.team1, Team1Tally(e), name), TeamTally(e.team2, Team2Tally(e), name))
  }

  /** The tallies of a history, entry by entry, added up. */
  function SumOf(history: seq<MatchResult>, f: MatchResult -> Tally): Tally {
    if history == [] then NoTally
    else Plus(SumOf(history[..|history| - 1], f), f(history[|history| - 1]))
  }

  function EntryTallies(name: string): MatchResult -> Tally {
    e => EntryTally(e, name)
  }

  /** The sum of a name's entry tallies over a whole history. */
  function HistoryTally(history: seq<MatchResult>, name: string): Tally {
    SumOf(history, EntryTallies(name))
  }

  // ---------------------------------------------------------------------------
  // Closed forms.

  lemma SameNamesSameFirst(ps: seq<Player>, qs: seq<Player>, k: int)
    requires Names(ps) == Names(qs) && 0 <= k < |ps|
    ensures |qs| == |ps| && (IsFirst(ps, k) <==> IsFirst(qs, k))
  {
    assert forall j :: 0 <= j < |ps| ==> ps[j].name == Names(ps)[j] == qs[j].name;
  }

  /** `find` singles out exactly the first record of each name. */
  lemma CreditNameAt(ps: seq<Player>, name: string, d: Tally, k: int)
    requires 0 <= k < |ps|
    ensures |CreditName(ps, name, d)| == |ps|
    ensures CreditName(ps, name, d)[k] ==
            if IsFirst(ps, k) then Credit(ps[k], if ps[k].name == name then d else NoTally) else ps[k]
  {
    assert Credit(ps[k], NoTally) == ps[k];
  }

  lemma PlusSwap(a: Tally, b: Tally, c: Tally)
    ensures Plus(Plus(a, b), c) == Plus(Plus(a, c), b)
  {
  }

  /** A team that names a player once credits that player one side tally. */
  lemma TeamTallyOnce(t: Team, d: Tally, n: string)
    requires (t.0 == n) != (t.1 == n)
    ensures TeamTally(t, d, n) == d
  {
    if t.0 == n {
      assert t.1 != n;
    } else {
      assert t.1 == n;
    }
  }

  lemma TeamTallyAbsent(t: Team, d: Tally, n: string)
    requires t.0 != n && t.1 != n
    ensures TeamTally(t, d, n) == NoTally
  {
  }

  /** A team whose side tally holds no win and no loss credits none, however often it names a player. */
  lemma TeamTallyNoResult(t: Team, d: Tally, n: string)
    requires d.wins == 0 && d.losses == 0
    ensures TeamTally(t, d, n).wins == 0 && TeamTally(t, d, n).losses == 0
  {
    if t.0 == n {
      if t.1 == n { } else { }
    } else {
      if t.1 == n { } else { }
    }
  }

  /** Two credits to one record add up. */
  lemma CreditTwice(p: Player, a: Tally, b: Tally)
    ensures Credit(Credit(p, a), b) == Credit(p, Plus(a, b))
  {
  }

  /** The credit a team's `forEach` gives the holder of `name`: one tally per occurrence. */
  function TeamTally(t: Team, d: Tally, name: string): Tally {
    Plus(if t.0 == name then d else NoTally, if t.1 == name then d else NoTally)
  }

  lemma CreditTeamAt(ps: seq<Player>, t: Team, d: Tally, k: int)
    requires 0 <= k < |ps|
    ensures |CreditNames(ps, TeamNames(t), d)| == |ps|
    ensures CreditNames(ps, TeamNames(t), d)[k] ==
            if IsFirst(ps, k) then Credit(ps[k], TeamTally(t, d, ps[k].name)) else ps[k]
  {
    var names := TeamNames(t);
    assert |names| == 2 && names[..1] == [t.0] && names[..1][..0] == [];
    var mid := CreditName(ps, t.0, d);
    assert CreditNames(ps, names[..1], d) == mid;
    assert CreditNames(ps, names, d) == CreditName(mid, t.1, d);
    CreditNameAt(ps, t.0, d, k);
    SameNamesSameFirst(ps, mid, k);
    CreditNameAt(mid, t.1, d, k);
    assert mid[k].name == ps[k].name;
    CreditTwice(ps[k], if ps[k].name == t.0 then d else NoTally, if ps[k].name == t.1 then d else NoTally);
  }

  /**
   * One entry, record by record: the record `find` returns for a name gains
   * that name's entry tally; every other record is unchanged.
   */
  lemma ApplyEntryAt(ps: seq<Player>, e: MatchResult, k: int)
    requires 0 <= k < |ps|
    ensures |ApplyEntry(ps, e)| == |ps|
    ensures ApplyEntry(ps, e)[k] ==
            if IsFirst(ps, k) then Credit(ps[k], EntryTally(e, ps[k].name)) else ps[k]
  {
    var n := ps[k].name;
    var mid := CreditNames(ps, TeamNames(e.team1), Team1Tally(e));
    CreditTeamAt(ps, e.team1, Team1Tally(e), k);
    SameNamesSameFirst(ps, mid, k);
    CreditTeamAt(mid, e.team2, Team2Tally(e), k);
    assert mid[k].name == n;
    CreditTwice(ps[k], TeamTally(e.team1, Team1Tally(e), n), TeamTally(e.team2, Team2Tally(e), n));
  }

  /**
   * The whole fold in closed form: the record `find` returns for a name ends
   * with its starting counters plus that name's tally over the history.
   */
  lemma {:induction false} ReplayAt(ps: seq<Player>, history: seq<MatchResult>, k: int)
    requires 0 <= k < |ps|
    ensures |Replay(ps, history)| == |ps|
    ensures Replay(ps, history)[k] ==
            if IsFirst(ps, k) then Credit(ps[k], HistoryTally(history, ps[k].name)) else ps[k]
  {
    if history == [] {
      assert Credit(ps[k], NoTally) == ps[k];
    } else {
      var pre, e := history[..|history| - 1], history[|history| - 1];
      var mid := Replay(ps, pre);
      var name := ps[k].name;
      ReplayAt(ps, pre, k);
      SameNamesSameFirst(ps, mid, k);
      ApplyEntryAt(mid, e, k);
      assert mid[k].name == name;
      assert Replay(ps, history) == ApplyEntry(mid, e);
      CreditTwice(ps[k], HistoryTally(pre, name), EntryTally(e, name));
    }
  }

  // ---------------------------------------------------------------------------
  // Properties of recalculateStats.

  /**
   * The result has the roster's length and names in roster order, and its
   * counters are rebuilt from zero: the first record of each name holds
   * exactly that name's history tally and later duplicates stay at zero.
   */
  lemma RecalculateAt(history: seq<MatchResult>, roster: seq<Player>, k: int)
    requires 0 <= k < |roster|
    ensures |Recalculate(history, roster)| == |roster|
    ensures Names(Recalculate(history, roster)) == Names(roster)
    ensures var t := HistoryTally(history, roster[k].name);
            Recalculate(history, roster)[k] ==
            if IsFirst(roster, k) then Player(roster[k].name, t.wins, t.losses, t.gamesFor, t.gamesAgainst)
            else Player(roster[k].name, 0, 0, 0, 0)
  {
    var z := Zeroed(roster);
    ReplayAt(z, history, k);
    assert Names(z) == Names(roster);
    SameNamesSameFirst(z, roster, k);
  }

  /** An empty history gives every record zero counters. */
  lemma RecalculateEmpty(roster: seq<Player>)
    ensures Recalculate([], roster) == Zeroed(roster)
    ensures forall k :: 0 <= k < |roster| ==> Recalculate([], roster)[k] == Player(roster[k].name, 0, 0, 0, 0)
  {
  }

  /** The counters already in the roster play no part: only its names matter. */
  lemma RecalculateIgnoresOldCounters(history: seq<MatchResult>, r1: seq<Player>, r2: seq<Player>)
    requires Names(r1) == Names(r2)
    ensures Recalculate(history, r1) == Recalculate(history, r2)
  {
    assert |r1| == |Names(r1)| == |Names(r2)| == |r2|;
    assert forall k :: 0 <= k < |r1| ==> r1[k].name == Names(r1)[k] == r2[k].name;
    assert Zeroed(r1) == Zeroed(r2);
  }

  /** Recomputing over an already recomputed roster changes nothing (no drift). */
  lemma RecalculateIdempotent(history: seq<MatchResult>, roster: seq<Player>)
    ensures Recalculate(history, Recalculate(history, roster)) == Recalculate(history, roster)
  {
    RecalculateIgnoresOldCounters(history, Recalculate(history, roster), roster);
  }

  /** Removing the entry at i leaves the sum short by exactly that entry's tally. */
  lemma {:induction false} SumRemove(history: seq<MatchResult>, i: int, f: MatchResult -> Tally)
    requires 0 <= i < |history|
    ensures SumOf(history, f) == Plus(SumOf(history[..i] + history[i + 1..], f), f(history[i]))
  {
    var n := |history|;
    if i == n - 1 {
      assert history[..i] + history[i + 1..] == history[..n - 1];
    } else {
      var pre := history[..n - 1];
      var rest := history[..i] + history[i + 1..];
      SumRemove(pre, i, f);
      assert pre[..i] + pre[i + 1..] == rest[..n - 2];
      assert rest[n - 2] == history[n - 1];
      var a := SumOf(rest[..n - 2], f);
      var b := f(history[i]);
      var c := f(history[n - 1]);
      assert SumOf(pre, f) == Plus(a, b);
      assert SumOf(history, f) == Plus(Plus(a, b), c);
      assert SumOf(rest, f) == Plus(a, c);
      PlusSwap(a, b, c);
    }
  }

  /** The sum depends only on the multiset of history entries. */
  lemma {:induction false} SumPermutation(h1: seq<MatchResult>, h2: seq<MatchResult>, f: MatchResult -> Tally)
    requires multiset(h1) == multiset(h2)
    ensures SumOf(h1, f) == SumOf(h2, f)
  {
    if h1 == [] {
      assert |h2| == |multiset(h2)| == 0;
    } else {
      var n := |h1|;
      var e := h1[n - 1];
      assert e in multiset(h2);
      var i :| 0 <= i < |h2| && h2[i] == e;
      var rest := h2[..i] + h2[i + 1..];
      assert h2 == h2[..i] + [e] + h2[i + 1..];
      assert h1 == h1[..n - 1] + [e];
      assert multiset(h1) == multiset(h1[..n - 1]) + multiset{e};
      assert multiset(h2) == multiset(h2[..i]) + multiset{e} + multiset(h2[i + 1..]);
      assert multiset(rest) == multiset(h2[..i]) + multiset(h2[i + 1..]);
      assert multiset(h1[..n - 1]) == multiset(h1) - multiset{e};
      assert multiset(rest) == multiset(h2) - multiset{e};
      SumPermutation(h1[..n - 1], rest, f);
      SumRemove(h2, i, f);
    }
  }

  /**
   * Order independence: any reordering of the history gives the same
   * standings, which is what makes "replace a round's entries, then
   * recompute from scratch" safe.
   */
  lemma RecalculatePermutation(h1: seq<MatchResult>, h2: seq<MatchResult>, roster: seq<Player>)
    requires multiset(h1) == multiset(h2)
    ensures Recalculate(h1, roster) == Recalculate(h2, roster)
  {
    var a := Recalculate(h1, roster);
    var b := Recalculate(h2, roster);
    forall k | 0 <= k < |roster|
      ensures |a| == |b| == |roster| && a[k] == b[k]
    {
      RecalculateAt(h1, roster, k);
      RecalculateAt(h2, roster, k);
      SumPermutation(h1, h2, EntryTallies(roster[k].name));
    }
    assert |a| == |Names(a)| == |Names(roster)| == |roster|;
    assert |b| == |Names(b)| == |Names(roster)| == |roster|;
  }

  // ---------------------------------------------------------------------------
  // One entry, as the source describes it.

  /** A drawn entry changes games for and against only, never wins or losses. */
  lemma DrawKeepsWinsAndLosses(ps: seq<Player>, e: MatchResult)
    requires e.score1 == e.score2
    ensures |ApplyEntry(ps, e)| == |ps|
    ensures forall k :: 0 <= k < |ps| ==>
      ApplyEntry(ps, e)[k].wins == ps[k].wins && ApplyEntry(ps, e)[k].losses == ps[k].losses
  {
    forall k | 0 <= k < |ps|
      ensures |ApplyEntry(ps, e)| == |ps|
      ensures ApplyEntry(ps, e)[k].wins == ps[k].wins && ApplyEntry(ps, e)[k].losses == ps[k].losses
    {
      ApplyEntryAt(ps, e, k);
      DrawCredit(ps[k], e);
    }
  }

  lemma DrawCredit(p: Player, e: MatchResult)
    requires e.score1 == e.score2
    ensures Credit(p, EntryTally(e, p.name)).wins == p.wins
    ensures Credit(p, EntryTally(e, p.name)).losses == p.losses
  {
    var t1, t2 := Team1Tally(e), Team2Tally(e);
    assert t1.wins == t1.losses == t2.wins == t2.losses == 0;
    TeamTallyNoResult(e.team1, t1, p.name);
    TeamTallyNoResult(e.team2, t2, p.name);
    var a, b := TeamTally(e.team1, t1, p.name), TeamTally(e.team2, t2, p.name);
    assert EntryTally(e, p.name) == Plus(a, b);
    CreditNoResult(p, a, b);
  }

  lemma CreditNoResult(p: Player, a: Tally, b: Tally)
    requires a.wins == a.losses == b.wins == b.losses == 0
    ensures Credit(p, Plus(a, b)).wins == p.wins && Credit(p, Plus(a, b)).losses == p.losses
  {
  }

  /**
   * A team1 player named once, and not in team2, gains score1 games for,
   * score2 games against, a win when score1 > score2 and a loss when
   * score1 < score2 (nothing on a draw).
   */
  lemma Team1PlayerCredit(ps: seq<Player>, e: MatchResult, k: int)
    requires 0 <= k < |ps| && IsFirst(ps, k)
    requires var n := ps[k].name;
             (e.team1.0 == n) != (e.team1.1 == n) && e.team2.0 != n && e.team2.1 != n
    ensures |ApplyEntry(ps, e)| == |ps|
    ensures ApplyEntry(ps, e)[k] == Team1Credit(ps[k], e)
  {
    ApplyEntryAt(ps, e, k);
    Team1CreditIsEntryTally(ps[k], e);
  }

  function Team1Credit(p: Player, e: MatchResult): Player {
    p.(wins := p.wins + (if e.score1 > e.score2 then 1 else 0),
       losses := p.losses + (if e.score1 < e.score2 then 1 else 0),
       gamesFor := p.gamesFor + e.score1,
       gamesAgainst := p.gamesAgainst + e.score2)
  }

  lemma Team1CreditIsEntryTally(p: Player, e: MatchResult)
    requires (e.team1.0 == p.name) != (e.team1.1 == p.name) && e.team2.0 != p.name && e.team2.1 != p.name
    ensures Credit(p, EntryTally(e, p.name)) == Team1Credit(p, e)
  {
    TeamTallyOnce(e.team1, Team1Tally(e), p.name);
    TeamTallyAbsent(e.team2, Team2Tally(e), p.name);
  }

  /** The mirror image for a team2 player: score2 for, score1 against, a win when score2 > score1. */
  lemma Team2PlayerCredit(ps: seq<Player>, e: MatchResult, k: int)
    requires 0 <= k < |ps| && IsFirst(ps, k)
    requires var n := ps[k].name;
             (e.team2.0 == n) != (e.team2.1 == n) && e.team1.0 != n && e.team1.1 != n
    ensures |ApplyEntry(ps, e)| == |ps|
    ensures ApplyEntry(ps, e)[k] == Team2Credit(ps[k], e)
  {
    ApplyEntryAt(ps, e, k);
    Team2CreditIsEntryTally(ps[k], e);
  }

  function Team2Credit(p: Player, e: MatchResult): Player {
    p.(wins := p.wins + (if e.score2 > e.score1 then 1 else 0),
       losses := p.losses + (if e.score2 < e.score1 then 1 else 0),
       gamesFor := p.gamesFor + e.score2,
       gamesAgainst := p.gamesAgainst + e.score1)
  }

  lemma Team2CreditIsEntryTally(p: Player, e: MatchResult)
    requires (e.team2.0 == p.name) != (e.team2.1 == p.name) && e.team1.0 != p.name && e.team1.1 != p.name
    ensures Credit(p, EntryTally(e, p.name)) == Team2Credit(p, e)
  {
    TeamTallyAbsent(e.team1, Team1Tally(e), p.name);
    TeamTallyOnce(e.team2, Team2Tally(e), p.name);
  }

  /** In an entry that is not a draw, exactly one side is credited a win and the other a loss. */
  lemma ExactlyOneSideWins(e: MatchResult)
    requires e.score1 != e.score2
    ensures Team1Tally(e).wins + Team2Tally(e).wins == 1
    ensures Team1Tally(e).wins == Team2Tally(e).losses && Team2Tally(e).wins == Team1Tally(e).losses
    ensures Team1Tally(e).wins + Team1Tally(e).losses == 1
  {
  }

  /**
   * Records whose name the entry does not mention are unchanged, and a name
   * the roster lacks credits nobody.
   */
  lemma UnnamedUnchanged(ps: seq<Player>, e: MatchResult, k: int)
    requires 0 <= k < |ps|
    requires ps[k].name !in {e.team1.0, e.team1.1, e.team2.0, e.team2.1}
    ensures |ApplyEntry(ps, e)| == |ps| && ApplyEntry(ps, e)[k] == ps[k]
  {
    ApplyEntryAt(ps, e, k);
    UnnamedCredit(ps[k], e);
  }

  lemma UnnamedCredit(p: Player, e: MatchResult)
    requires p.name !in {e.team1.0, e.team1.1, e.team2.0, e.team2.1}
    ensures Credit(p, EntryTally(e, p.name)) == p
  {
    TeamTallyAbsent(e.team1, Team1Tally(e), p.name);
    TeamTallyAbsent(e.team2, Team2Tally(e), p.name);
  }

  lemma AbsentNameIgnored(ps: seq<Player>, name: string, d: Tally)
    requires name !in Names(ps)
    ensures CreditName(ps, name, d) == ps
  {
  }

  // ---------------------------------------------------------------------------
  // The imperative implementation.

  /**
   * `recalculateStats`: copies the roster with zeroed counters into `updated`
   * and credits the records in place, entry by entry and name by name.
   */
  method RecalculateStats(history: seq<MatchResult>, playerList: seq<Player>) returns (result: seq<Player>)
    ensures result == Recalculate(history, playerList)
  {
    var updated := new Player[|playerList|](k requires 0 <= k < |playerList| =>
      Player(playerList[k].name, 0, 0, 0, 0));
    for h := 0 to |history|
      invariant updated[..] == Replay(Zeroed(playerList), history[..h])
    {
      CreditEntry(updated, history[h]);
      assert history[..h + 1][..h] == history[..h];
    }
    assert history[..|history|] == history;
    result := updated[..];
  }

  /** One pass of the history `forEach` (lib/tournament.ts:49-76). */
  method CreditEntry(updated: array<Player>, entry: MatchResult)
    modifies updated
    ensures updated[..] == ApplyEntry(old(updated[..]), entry)
  {
    var team1Won := entry.score1 > entry.score2;
    var isDraw := entry.score1 == entry.score2;
    CreditTeam(updated, entry.team1, entry.score1, entry.score2, isDraw, team1Won);
    CreditTeam(updated, entry.team2, entry.score2, entry.score1, isDraw, !team1Won);
  }

  /** The inner `forEach` over one team's names (lib/tournament.ts:53-63 and 65-75). */
  method CreditTeam(updated: array<Player>, team: Team, gamesFor: int, gamesAgainst: int, isDraw: bool, won: bool)
    modifies updated
    ensures updated[..] == CreditNames(old(updated[..]), TeamNames(team), SideTally(gamesFor, gamesAgainst, isDraw, won))
  {
    var names := TeamNames(team);
    ghost var start := updated[..];
    ghost var d := SideTally(gamesFor, gamesAgainst, isDraw, won);
    for t := 0 to |names|
      invariant updated[..] == CreditNames(start, names[..t], d)
    {
      CreditPlayer(updated, names[t], gamesFor, gamesAgainst, isDraw, won);
      assert names[..t + 1][..t] == names[..t];
    }
    assert names[..|names|] == names;
  }

  /** The body of that `forEach`: `find` the name's record and bump its counters in place. */
  method CreditPlayer(updated: array<Player>, name: string, gamesFor: int, gamesAgainst: int, isDraw: bool, won: bool)
    modifies updated
    ensures updated[..] == CreditName(old(updated[..]), name, SideTally(gamesFor, gamesAgainst, isDraw, won))
  {
    var found := FindIndex(updated[..], name);
    if found.Some? {
      var k := found.value;
      var player := updated[k];
      player := player.(gamesFor := player.gamesFor + gamesFor, gamesAgainst := player.gamesAgainst + gamesAgainst);
      if !isDraw {
        if won {
          player := player.(wins := player.wins + 1);
        } else {
          player := player.(losses := player.losses + 1);
        }
      }
      assert player == Credit(updated[k], SideTally(gamesFor, gamesAgainst, isDraw, won));
      updated[k] := player;
    }
  }
}
