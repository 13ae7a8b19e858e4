/**
 * The records shared by the scheduler, the standings engine and the screens
 * (lib/tournament.ts). Numbers are JavaScript numbers; every value the core
 * computes is a small whole number, so they are modelled as `int`.
 */
module Tournament {
  import opened Wrappers

  /** A two-person team, `[string, string]` in the source. */
  type Team = (string, string)

  datatype Player = Player(name: string, wins: int, losses: int, gamesFor: int, gamesAgainst: int)

  datatype Match = Match(court: int, team1: Team, team2: Team, score1: int, score2: int, submitted: bool)

  /** `bye` is `null` (None) when nobody rests this round. */
  datatype Round = Round(roundNumber: int, matches: seq<Match>, bye: Option<string>)

  /** One entry of the match history. */
  datatype MatchResult = MatchResult(roundNumber: int, court: int, team1: Team, team2: Team, score1: int, score2: int)

  /** The names of a roster, in roster order. */
  function Names(ps: seq<Player>): (r: seq<string>)
    ensures |r| == |ps|
    ensures forall k :: 0 <= k < |ps| ==> r[k] == ps[k].name
  {
    if ps == [] then [] else [ps[0].name] + Names(ps[1..])
  }

  /** No value occurs twice. */
  predicate Distinct<T(==)>(s: seq<T>) {
    forall i, j :: 0 <= i < j < |s| ==> s[i] != s[j]
  }
}
