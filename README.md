# Espresso Padel: a verified model of the scheduler, the standings and the screens' rules

This project models the core of a small Individual Americano padel tournament
app and proves properties of it in Dafny.

- **Scheduler** (`generateFullSchedule`, module `Schedule`). The circle method pads an odd roster with the
  `"__BYE__"` sentinel and keeps `list[0]` fixed. The other players sit on a "ribbon" array that is rotated right
  in place after each round. Each round folds position `i` against position `size-1-i`. A pair holding the sentinel
  becomes the round's bye. The other pairs are grouped two by two into court-numbered matches, capped at
  `min(courts, floor(active/2))`. Each loop is a method, and the ribbon is an `array` rotated in place. Each method
  is proved equal to a specification function: `FullSchedule`, `RoundsOf`, `RoundFrom`, `SplitBye`, `Matches`,
  `FoldPairs` and `Rotated`. The properties are proved about those functions in `ScheduleProperties`. The modular
  arithmetic behind them (slot positions, mirrored pairs, which round rests whom) is in `CircleMethod`. Module
  `Lineups` shows who is on court in a round: nobody twice, never the resting player, only roster players.
- **Standings** (`recalculateStats`, module `Stats`). The roster is zeroed, then every history entry credits the
  first roster record of each named player. The method updates an `array<Player>` in place, entry by entry and
  name by name. It is proved equal to the fold `Recalculate`. A closed form (`RecalculateAt`) adds up per-entry
  tallies. From it follow order independence, idempotence and the per-entry rules.
- **Leaderboard** (module `Leaderboard`):
  - the ranking comparator and the sorted list (a stable sort by the comparator);
  - the winner banner;
  - the `reduce` that groups the history by round, as a method with a loop;
  - the descending list of round numbers;
  - the expanded-rounds toggle, as a class with an `expanded` set field.
- **Score entry** (module `ActiveRound`). The component's `scores` and `confirming` state is a class. Its methods
  are proved against pure transition functions: the zero clamp, the `every` predicate, and the two-step submit
  with cancel.
- **Roster builder** (module `SetupScreen`). The `playerName` and `players` state is a class. Adding a trimmed,
  non-empty, new name and removing a name both keep the roster valid. The file also holds the four-player gate and
  the button label.

Records shared by all modules are in `Tournament`. `Wrappers` holds `Option`.

## Model

| member | source | states |
|---|---|---|
| Stats.Zeroed | lib/tournament.ts:41-47 | the zeroed roster has the same length and every record keeps its name with wins, losses, gamesFor and gamesAgainst all 0 |
| Stats.SideTally | lib/tournament.ts:56-61 | defines what one side earns per named player: its own score for, the other score against, and a win or a loss unless drawn; stated through `Team1PlayerCredit` and `Team2PlayerCredit` |
| Stats.Team1Tally | lib/tournament.ts:50-61 | defines team1's side tally: a draw when the scores are equal, a win when score1 > score2 |
| Stats.Team2Tally | lib/tournament.ts:50-73 | defines team2's side tally, with `!team1Won` as its win; stated through `ExactlyOneSideWins` |
| Stats.FindIndex | lib/tournament.ts:54 | `find` by name: Some(k) is the first record with that name; None exactly when no record has it |
| Stats.CreditName | lib/tournament.ts:53-63 | crediting one name keeps the roster's length and names in order |
| Stats.CreditNames | lib/tournament.ts:53-63 | crediting a team's names in order keeps the roster's length and names in order |
| Stats.ApplyEntry | lib/tournament.ts:49-76 | one history entry keeps the roster's length and names in order |
| Stats.Replay | lib/tournament.ts:49-76 | the fold over the history keeps the roster's length and names in order |
| Stats.Recalculate | lib/tournament.ts:37-79 | defines the result as the fold of the history over the zeroed roster; `RecalculateAt` gives its closed form |
| Stats.EntryTally | lib/tournament.ts:53-75 | defines what one entry credits to a name, one side tally per team slot naming it; related to the source's rules by `Team1CreditIsEntryTally` and `Team2CreditIsEntryTally` |
| Stats.HistoryTally | lib/tournament.ts:49-76 | defines the sum of a name's entry tallies over the history, which `RecalculateAt` shows the name's first record holds |
| Stats.SameNamesSameFirst | lib/tournament.ts:54 | whether a record is the first with its name depends only on the names of the roster |
| Stats.CreditNameAt | lib/tournament.ts:53-63 | after crediting a name, record k gains the tally if it is the first record with that name and is unchanged otherwise |
| Stats.CreditTeamAt | lib/tournament.ts:53-63 | after crediting a team, record k gains the tally once per team slot naming it, and only if it is the first record with its name |
| Stats.ApplyEntryAt | lib/tournament.ts:49-76 | after one entry, record k has gained that entry's tally for its name if it is the first with its name, and is unchanged otherwise |
| Stats.ReplayAt | lib/tournament.ts:49-76 | after the whole history, record k has gained the sum of all entries' tallies for its name if it is the first with its name, and is unchanged otherwise |
| Stats.RecalculateAt | lib/tournament.ts:37-79 | closed form: same length and names; the first record of each name holds exactly the summed tallies of the history, and a later duplicate holds zeros |
| Stats.RecalculateEmpty | lib/tournament.ts:41-47 | an empty history gives every player all-zero counters |
| Stats.RecalculateIgnoresOldCounters | lib/tournament.ts:41-47 | the result depends only on the roster's names, never on the counters passed in |
| Stats.RecalculateIdempotent | lib/tournament.ts:33-36 | recomputing from the result of a recomputation gives the same result |
| Stats.SumRemove | lib/tournament.ts:49-76 | the summed tallies equal those of the history without entry i plus entry i's own tally |
| Stats.SumPermutation | lib/tournament.ts:49-76 | any two histories with the same multiset of entries sum to the same tally |
| Stats.RecalculatePermutation | lib/tournament.ts:33-36 | permuting the history does not change the recomputed roster |
| Stats.DrawKeepsWinsAndLosses | lib/tournament.ts:51-61 | a drawn entry changes no player's wins or losses |
| Stats.DrawCredit | lib/tournament.ts:58-61 | a drawn entry credits a named player no win and no loss |
| Stats.CreditNoResult | lib/tournament.ts:58-73 | adding two tallies without wins or losses leaves a player's wins and losses as they were |
| Stats.Team1PlayerCredit | lib/tournament.ts:53-63 | a player named once in team1, and not in team2, gains score1 for, score2 against, and a win if score1 > score2 or a loss if it is smaller |
| Stats.Team1CreditIsEntryTally | lib/tournament.ts:56-61 | the team1 rule equals the entry's tally for that player |
| Stats.Team2PlayerCredit | lib/tournament.ts:65-75 | the mirror rule for a player named once in team2 |
| Stats.Team2CreditIsEntryTally | lib/tournament.ts:68-73 | the team2 rule equals the entry's tally for that player |
| Stats.ExactlyOneSideWins | lib/tournament.ts:50-73 | for a decided entry exactly one side is credited the win, and the other side is credited the loss |
| Stats.UnnamedUnchanged | lib/tournament.ts:53-75 | a record whose name is in neither team is unchanged by the entry |
| Stats.UnnamedCredit | lib/tournament.ts:53-75 | the entry's tally for a name in neither team adds nothing |
| Stats.AbsentNameIgnored | lib/tournament.ts:54-55 | crediting a name missing from the roster leaves the roster unchanged |
| Stats.RecalculateStats | lib/tournament.ts:37-79 | the in-place method returns exactly `Recalculate(history, playerList)` |
| Stats.CreditEntry | lib/tournament.ts:49-76 | one pass of the history loop turns the array into `ApplyEntry` of its old contents |
| Stats.CreditTeam | lib/tournament.ts:53-63 | the team loop credits both names of the team in order |
| Stats.CreditPlayer | lib/tournament.ts:54-62 | the `find`-then-mutate step credits the first record with the name, or nothing if there is none |
| Schedule.Padded | lib/tournament.ts:106-113 | the working list is even-sized, starts with the roster, and holds the sentinel in the one extra slot when the roster is odd |
| Schedule.RotateRight | lib/tournament.ts:176 | defines `unshift(pop())` on a sequence; `RotateRibbon` is proved to compute it and `ScheduleProperties.RotateRightAt` gives each entry |
| Schedule.Rotated | lib/tournament.ts:176 | defines the ribbon after r rounds, and keeps its length |
| Schedule.Ordering | lib/tournament.ts:123 | defines round r's ordering as the fixed entry then the rotated ribbon, of the list's length; `ScheduleProperties.OrderingAt` gives each position |
| Schedule.FoldPairs | lib/tournament.ts:129-132 | defines the fold pairs `(cur[i], cur[size-1-i])`; `ScheduleProperties.FoldPairsCover` shows they cover the ordering |
| Schedule.SplitBye | lib/tournament.ts:134-146 | defines the bye scan; `ScheduleProperties.SplitByeClean`, `SplitByeOne` and `SplitByeActive` state its result |
| Schedule.MatchCount | lib/tournament.ts:151 | defines `Math.min(courts, floor(active/2))` |
| Schedule.Matches | lib/tournament.ts:151-166 | defines the matches of the active pairs; `ScheduleProperties.MatchesFresh` and `MatchAt` state their shape |
| Schedule.MatchesExtension | lib/tournament.ts:151-166 | matches built one court at a time, court t+1 holding pairs 2t and 2t+1, are `Matches` |
| Schedule.RoundFrom | lib/tournament.ts:123-173 | defines the round numbered r+1 with the bye and the matches of an ordering's fold pairs |
| Schedule.RoundAt | lib/tournament.ts:121-173 | defines round r of a padded list as the round of its r-th ordering |
| Schedule.RoundsOf | lib/tournament.ts:119-179 | defines the `size-1` rounds of a padded list |
| Schedule.FullSchedule | lib/tournament.ts:100-180 | defines the schedule: no rounds for an empty roster, else the rounds of the padded roster; its properties are in `ScheduleProperties` and `Lineups` |
| Schedule.RotateRibbon | lib/tournament.ts:176 | `unshift(pop())` on the ribbon array rotates its contents right by one |
| Schedule.PairUp | lib/tournament.ts:129-132 | the pairing loop yields the fold pairs `(current[i], current[size-1-i])` |
| Schedule.FindBye | lib/tournament.ts:134-146 | the bye scan returns exactly the bye and active pairs of `SplitBye` |
| Schedule.GroupMatches | lib/tournament.ts:151-167 | the match loop returns exactly `Matches(activePairs, courts)` |
| Schedule.BuildRound | lib/tournament.ts:123-173 | one round built from an ordering equals `RoundFrom` |
| Schedule.PlayRound | lib/tournament.ts:121-177 | one loop iteration builds the round of the current ordering and rotates the ribbon |
| Schedule.PushRound | lib/tournament.ts:169-176 | after round r is pushed, the rounds so far are the first r+1 rounds of the schedule and the ribbon is rotated r+1 times |
| Schedule.RoundLoop | lib/tournament.ts:119-179 | the round loop over a padded list returns all `size-1` rounds of `RoundsOf` |
| Schedule.GenerateFullSchedule | lib/tournament.ts:100-180 | the method returns exactly `FullSchedule(playerNames, courts)` |
| Schedule.PrefixStep | lib/tournament.ts:169 | pushing onto the rounds so far extends the prefix by the next round |
| ScheduleProperties.RotatedAt | lib/tournament.ts:176 | after r rotations, ribbon position j holds the original element at (j - r) mod its length |
| ScheduleProperties.RotateRightAt | lib/tournament.ts:176 | after one rotation, position j holds the entry at (j - 1) mod length |
| ScheduleProperties.OrderingAt | lib/tournament.ts:121-123 | round r's ordering holds at position p the list element at `Slot(size-1, r, p)` |
| ScheduleProperties.RoundPairsAt | lib/tournament.ts:125-132 | fold pair i of round r is the pair of list elements at slots i and size-1-i |
| ScheduleProperties.RotateRightPermutation | lib/tournament.ts:176 | one rotation of the ribbon permutes it |
| ScheduleProperties.RotatedPermutation | lib/tournament.ts:176 | rotating the ribbon any number of times permutes it |
| ScheduleProperties.RotatedSplit | lib/tournament.ts:176 | after r rotations the ribbon is the original cut at position (-r) mod n with its two halves swapped |
| ScheduleProperties.OrderingPermutation | lib/tournament.ts:123 | every round's ordering is a permutation of the padded list |
| ScheduleProperties.FoldPairsCover | lib/tournament.ts:129-132 | the fold pairs of an even-sized ordering together hold each of its entries exactly as often as it occurs |
| ScheduleProperties.RoundCover | lib/tournament.ts:125-132 | the fold pairs of every round cover the padded list as a multiset |
| ScheduleProperties.RoundDisjoint | lib/tournament.ts:125-132 | with distinct entries, no entry appears in two fold pairs of a round, or twice in one |
| ScheduleProperties.PaddedDistinct | lib/tournament.ts:108-110 | padding a distinct roster that avoids the sentinel keeps the list distinct |
| ScheduleProperties.ScheduleAt | lib/tournament.ts:121-177 | round r has number r+1, the matches of its active fold pairs, and the bye of its scan |
| ScheduleProperties.ScheduleShape | lib/tournament.ts:108-113 | the schedule has 0 rounds for no players, n-1 for even n and n for odd n, and round k is numbered k+1 |
| ScheduleProperties.SplitByeClean | lib/tournament.ts:138-146 | a scan over pairs without the sentinel gives no bye and keeps every pair active |
| ScheduleProperties.SplitByeOne | lib/tournament.ts:138-146 | with the sentinel in exactly one pair, the scan's bye is that pair's other member and every other pair stays active, in order |
| ScheduleProperties.SplitByeActive | lib/tournament.ts:138-146 | every active pair is a fold pair without the sentinel |
| ScheduleProperties.EvenPairsClean | lib/tournament.ts:134-146 | for an even roster no fold pair holds the sentinel |
| ScheduleProperties.OddPairsBye | lib/tournament.ts:134-146 | for an odd roster exactly one fold pair holds the sentinel, and its partner is the player at `ByeIndex` |
| ScheduleProperties.ByeEven | lib/tournament.ts:134-146 | for an even roster every round's bye is null and its matches come from all of its fold pairs |
| ScheduleProperties.ByeOdd | lib/tournament.ts:134-146 | for an odd roster round r's bye is the player at `ByeIndex(n, r)` |
| ScheduleProperties.ByeEveryone | lib/tournament.ts:92-98 | for an odd roster every player is the bye of some round |
| ScheduleProperties.ByeOnce | lib/tournament.ts:92-98 | for an odd roster of distinct names, two rounds with the same bye are the same round |
| ScheduleProperties.ActiveCount | lib/tournament.ts:136-146 | every round has floor(n/2) active pairs |
| ScheduleProperties.MatchesFresh | lib/tournament.ts:151-166 | the match grouping makes min(courts, floor(active/2)) matches, or none when courts <= 0; they are on courts 1, 2, ... with scores 0-0 and not submitted |
| ScheduleProperties.MatchAt | lib/tournament.ts:154-161 | match k exists only when active pairs 2k and 2k+1 do, and has them as team1 and team2 |
| ScheduleProperties.MatchesShape | lib/tournament.ts:151-166 | every round has min(courts, floor(n/4)) matches, or none when courts <= 0; they are on courts 1, 2, ... with scores 0-0 and not submitted |
| ScheduleProperties.IdlePlayers | lib/tournament.ts:151-157 | with an even roster of size 4k+2 there is no bye, yet at most 4k players are on court, so pairs are dropped every round |
| ScheduleProperties.MatchTeamsArePairs | lib/tournament.ts:154-161 | every team on court is a fold pair of its round and holds no sentinel |
| Lineups.MatchesTeams | lib/tournament.ts:151-166 | the teams of the matches, in order, are the leading active pairs, two per court |
| Lineups.SplitByeDisjoint | lib/tournament.ts:134-146 | when the fold pairs repeat nobody, the active pairs repeat nobody and leave out the bye |
| Lineups.ActiveDisjoint | lib/tournament.ts:121-146 | for a roster without repeated names, round r's active pairs repeat nobody and leave out the bye |
| Lineups.ActiveOnRoster | lib/tournament.ts:121-146 | everyone in round r's active pairs is on the roster |
| Lineups.PaddedMember | lib/tournament.ts:106-113 | any member of the padded list other than the sentinel is on the roster |
| Lineups.MatchesDisjoint | lib/tournament.ts:151-166 | matches drawn from pairs that repeat nobody put nobody on court twice, and only players of those pairs |
| Lineups.OnCourtDisjoint | lib/tournament.ts:121-177 | for a roster without repeated names, in every round nobody plays on two courts or twice in one match, the resting player plays on no court, and everyone on court is on the roster |
| ScheduleProperties.PartnerOnce | lib/tournament.ts:97-98 | with an even distinct list, the same two players are never fold-paired in two different rounds or two different slots |
| ScheduleProperties.PartnerSomeRound | lib/tournament.ts:97-98 | every two distinct positions of the padded list are fold-paired in some round |
| ScheduleProperties.PartnersExactlyOnce | lib/tournament.ts:97-98 | for a distinct roster, every two players are fold-paired in exactly one round and slot of the padded schedule |
| ScheduleProperties.MatchPartnerOnce | lib/tournament.ts:97-98 | two teammates on court in two rounds means the same round, because the matches are drawn from the fold pairs |
| ScheduleProperties.FourPlayersOneCourt | lib/tournament.ts:100-180 | roster A, B, C, D with one court gives {A,D} v {B,C}, then {A,C} v {D,B}, then {A,B} v {C,D}, no byes |
| CircleMethod.SlotInjective | lib/tournament.ts:121-123 | distinct positions of a round's ordering hold distinct slots of the list |
| CircleMethod.SlotOf | lib/tournament.ts:121-123 | every ribbon slot sits at some position in every round |
| CircleMethod.PartnersOnce | lib/tournament.ts:97-98 | two slots are fold partners in at most one round |
| CircleMethod.PartnersSomeRound | lib/tournament.ts:97-98 | any two slots are fold partners in some round |
| CircleMethod.ByeIndexPartners | lib/tournament.ts:134-146 | the sentinel slot's fold partner in round r is the slot at `ByeIndex(m, r)` |
| CircleMethod.ByeIndexInjective | lib/tournament.ts:92-98 | different rounds rest different players |
| CircleMethod.ByeIndexOnto | lib/tournament.ts:92-98 | every player rests in some round |
| CircleMethod.ByeRound | lib/tournament.ts:134-146 | for every c below m-1 some round r >= 1 has m - 1 - 2r congruent to c modulo m |
| Leaderboard.CompareMeaning | components/leaderboard.tsx:45-51 | the comparator is at most 0 exactly when `a` has more wins, or as many and a better game difference, or both equal and at least as many games for; it is antisymmetric |
| Leaderboard.Compare | components/leaderboard.tsx:45-51 | defines the comparator: wins, then game difference, then games for, larger first; `CompareMeaning` and `CompareTransitive` state its order |
| Leaderboard.CompareTransitive | components/leaderboard.tsx:45-51 | the comparator's order is transitive |
| Leaderboard.Insert | components/leaderboard.tsx:45 | inserting a player adds exactly that player to the multiset |
| Leaderboard.InsertRanked | components/leaderboard.tsx:45-51 | inserting into a ranked list keeps it ranked |
| Leaderboard.Sorted | components/leaderboard.tsx:45 | `sorted` is a permutation of `players` |
| Leaderboard.SortedRanked | components/leaderboard.tsx:45-51 | in `sorted`, no player stands before one that ranks strictly above it |
| Leaderboard.SortedOrder | components/leaderboard.tsx:46-50 | down `sorted`, wins never increase; with equal wins the game difference never increases; with both equal gamesFor never increases |
| Leaderboard.SortedLength | components/leaderboard.tsx:45 | `sorted` has as many entries as `players` |
| Leaderboard.SortedKeepsRankedList | components/leaderboard.tsx:45 | a list already in ranking order is returned unchanged, so ties keep their roster order |
| Leaderboard.Ties | components/leaderboard.tsx:45-51 | defines the players tied with a given player on all three keys, in list order; its meaning is stated by `TiesMeaning` |
| Leaderboard.TiesMeaning | components/leaderboard.tsx:45-51 | `Ties(s, x)` holds each player tied with `x` exactly as often as `s` does, and no one else |
| Leaderboard.InsertTies | components/leaderboard.tsx:45-51 | inserting a player puts it ahead of every player it is tied with and keeps their order |
| Leaderboard.SortedStable | components/leaderboard.tsx:45-51 | the sort is stable: for every player `x`, the players tied with `x` appear in `sorted` in the same order as in `players` |
| Leaderboard.SortedHeadLeads | components/leaderboard.tsx:134-141 | the first sorted player is on the roster and ranks at least as high as every player |
| Leaderboard.Winner | components/leaderboard.tsx:134-141 | the banner appears exactly when the standings are final and the roster is non-empty; it names a roster player ranking at least as high as everyone |
| Leaderboard.InRound | components/leaderboard.tsx:54-61 | a round's group is never longer than the history |
| Leaderboard.RoundsInMeaning | components/leaderboard.tsx:54-61 | a round number is a group key exactly when some history entry carries it |
| Leaderboard.InRoundEmpty | components/leaderboard.tsx:54-61 | a round number no entry carries has an empty group |
| Leaderboard.InRoundOnlyRound | components/leaderboard.tsx:54-61 | every entry in a group carries that group's round number |
| Leaderboard.InRoundKeepsAll | components/leaderboard.tsx:54-61 | every history entry occurs in its round's group exactly as often as in the history, so nothing is lost or duplicated |
| Leaderboard.InRoundAppend | components/leaderboard.tsx:54-61 | grouping a concatenation concatenates the groups, so each group keeps history order |
| Leaderboard.GroupByRound | components/leaderboard.tsx:54-61 | the `reduce` loop's keys are exactly the round numbers in the history, and each key maps to the entries of that round in history order |
| Leaderboard.RoundNumbers | components/leaderboard.tsx:62-64 | the round numbers listed are exactly the group keys, in strictly descending order |
| Leaderboard.RoundNumbersOfHistory | components/leaderboard.tsx:54-64 | a round number is listed exactly when some history entry carries it |
| Leaderboard.Toggled | components/leaderboard.tsx:68-75 | toggling flips membership of `rn` and leaves every other round's membership as it was |
| Leaderboard.ToggleTwice | components/leaderboard.tsx:68-75 | toggling the same round twice restores the set |
| Leaderboard.Accordion.constructor | components/leaderboard.tsx:67 | no round starts expanded |
| Leaderboard.Accordion.ToggleRound | components/leaderboard.tsx:68-75 | the `expanded` field becomes the toggled copy of its old value |
| ActiveRound.Initial | components/active-round.tsx:24-27 | the initial state has one 0-0 score per match and no confirm prompt |
| ActiveRound.Clamped | components/active-round.tsx:34 | `Math.max(0, v)`: never negative, never below v, and equal to v or 0 |
| ActiveRound.With | components/active-round.tsx:35 | replacing the named field sets it and leaves the other field as it was |
| ActiveRound.Updated | components/active-round.tsx:29-40 | `updateScore` keeps the length and the confirm flag, changes no other match, sets the named field to the clamped sum, and leaves the other field alone |
| ActiveRound.InitialNonNegative | components/active-round.tsx:24-26 | the initial scores are all non-negative |
| ActiveRound.UpdateKeepsNonNegative | components/active-round.tsx:34 | a sheet of non-negative scores stays non-negative after any update |
| ActiveRound.DecrementAtZero | components/active-round.tsx:34 | decrementing a zero score leaves the whole sheet unchanged |
| ActiveRound.UpdateUndone | components/active-round.tsx:31-36 | a step the clamp does not cut is undone by the opposite step |
| ActiveRound.AllFilled | components/active-round.tsx:42 | `allFilled` holds exactly when every match has score1 > 0 or score2 > 0 |
| ActiveRound.Pressed | components/active-round.tsx:44-50 | a press submits something exactly when the prompt was showing, and then submits the current scores; afterwards the prompt shows and the scores are unchanged |
| ActiveRound.Cancelled | components/active-round.tsx:184 | Cancel hides the prompt and keeps the scores |
| ActiveRound.PressTwiceSubmits | components/active-round.tsx:44-50 | from the plain button, the first press submits nothing and the second submits exactly the current scores |
| ActiveRound.CancelUndoesPress | components/active-round.tsx:184 | Cancel after the first press returns to the state before it |
| ActiveRound.SubmitNotGated | components/active-round.tsx:199-206 | an untouched sheet is not filled, yet two presses still submit it |
| ActiveRound.ScoreEntry.constructor | components/active-round.tsx:24-27 | the fields start in the initial state |
| ActiveRound.ScoreEntry.UpdateScore | components/active-round.tsx:29-40 | the fields become `Updated` of their old values |
| ActiveRound.ScoreEntry.HandleSubmit | components/active-round.tsx:44-50 | the fields and the submitted scores are `Pressed` of the old state |
| ActiveRound.ScoreEntry.Cancel | components/active-round.tsx:184 | the fields become `Cancelled` of their old values |
| SetupScreen.TrimStart | components/setup-screen.tsx:17 | the result is a suffix of the input that does not start with whitespace, and everything cut off was whitespace |
| SetupScreen.TrimEnd | components/setup-screen.tsx:17 | the result is a prefix of the input that does not end with whitespace, and everything cut off was whitespace |
| SetupScreen.Trim | components/setup-screen.tsx:17 | the result is no longer than the input and has no whitespace at either end |
| SetupScreen.TrimSurrounded | components/setup-screen.tsx:17 | a string without whitespace at its ends, padded with any whitespace on both sides, trims back to itself |
| SetupScreen.TrimIdempotent | components/setup-screen.tsx:17 | trimming twice is trimming once |
| SetupScreen.TrimEmpty | components/setup-screen.tsx:17-18 | a name trims to empty exactly when it is all whitespace |
| SetupScreen.Added | components/setup-screen.tsx:16-22 | the old roster stays a prefix; the roster grows by exactly one name when the box holds something besides whitespace whose trimmed form is not on the roster yet; the new name is non-empty, trimmed and the trimmed box, and the box is cleared; otherwise the form is unchanged |
| SetupScreen.AppendDistinct | components/setup-screen.tsx:18-19 | appending a name not yet present keeps the roster free of duplicates |
| SetupScreen.AddKeepsValid | components/setup-screen.tsx:16-22 | adding keeps the roster free of duplicates and of empty or untrimmed names |
| SetupScreen.AddTwice | components/setup-screen.tsx:18 | typing the same name again after adding it changes nothing |
| SetupScreen.Removed | components/setup-screen.tsx:24-26 | the removed name is gone and every other name is present exactly when it was before |
| SetupScreen.RemoveAt | components/setup-screen.tsx:24-26 | removing the name at index k of a duplicate-free roster drops exactly that entry and keeps the rest in order |
| SetupScreen.NotInRemovedUnchanged | components/setup-screen.tsx:25 | removing a name not on the roster changes nothing |
| SetupScreen.RemovedDistinct | components/setup-screen.tsx:25 | removal keeps a roster free of duplicates |
| SetupScreen.RemoveKeepsValid | components/setup-screen.tsx:24-26 | removing keeps the roster free of duplicates and of empty or untrimmed names |
| SetupScreen.RemoveUndoesAdd | components/setup-screen.tsx:16-26 | removing the name just added restores the roster |
| SetupScreen.CanGenerate | components/setup-screen.tsx:35 | defines the gate, at least four players; `GateMeaning` states what it guarantees |
| SetupScreen.IsOdd | components/setup-screen.tsx:36 | defines the odd-roster note, an odd roster that passes the gate; `GateMeaning` shows it holds exactly when rounds have a bye |
| SetupScreen.GateMeaning | components/setup-screen.tsx:35-36 | a roster passing the gate gets at least three rounds; a round has a bye exactly when `isOdd` holds |
| SetupScreen.Digit | components/setup-screen.tsx:173 | the digit character's value is the number shown |
| SetupScreen.ButtonLabel | components/setup-screen.tsx:173 | the label is "Generate Schedule" when the gate is open; otherwise it is exactly "Add d more player" followed by "s" unless d is 1, where d plus the roster size is 4 (17 characters for d = 1, 18 otherwise) |
| SetupScreen.SetupForm.constructor | components/setup-screen.tsx:11-12 | the form starts with an empty box and an empty, valid roster |
| SetupScreen.SetupForm.AddPlayer | components/setup-screen.tsx:16-22 | the fields become `Added` of their old values, and a valid roster stays valid |
| SetupScreen.SetupForm.RemovePlayer | components/setup-screen.tsx:24-26 | the roster becomes `Removed` of the old roster, the box is untouched, and a valid roster stays valid |

## Left out

- Persistence, HTTP routes, random tournament ids, routing, rendering, clipboard, timers and scroll behaviour are I/O or presentation. They are not modelled. `matchDuration` is collected by the setup screen but never used by the core, so it is left out too.
- React state machinery is not modelled. Each component's state is a class whose fields the methods assign. `setX(prev => ...)` is modelled as an assignment computed from the old value.
- JavaScript numbers are modelled as unbounded integers. Every value the core computes is a small whole number. `courts` is not validated by the route that calls the scheduler. The model accepts any integer for it, including 0 and negatives, which give no matches. Fractional court counts are not modelled.
- The `p1 && p2` guard in the match loop (lib/tournament.ts:157) always holds. The loop only reads indices below `2 * matchCount`, and a pair is a non-empty array, so the guard is not modelled as a branch.
- The sentinel: the scheduler's properties require that no player is named `"__BYE__"`. The code makes no such check, and neither does the roster builder.
- Duplicate names: the partner and bye uniqueness properties require distinct names. The standings model handles duplicates as the code does, crediting only the first record.
- A round's matches plus its bye need not cover the roster. With an odd number of active pairs, or too few courts, pairs are dropped (lib/tournament.ts:151-157). `ScheduleProperties.IdlePlayers` states the dropped players for rosters of size 4k+2.
- ActiveRound.Updated: requires `matchIdx` to be an index of `scores`. The source would throw on any other index, and the screen only passes indices of rendered matches.
- The scores are initialised from `matches` once, as `useState` does. A later change of the `matches` prop is not modelled.
- Leaderboard.Sorted: written as an insertion sort rather than the engine's `Array.prototype.sort`. The model proves that the result is a permutation (`Sorted`), ranked (`SortedRanked`) and stable (`SortedStable`). Those three properties fix the output of any stable sort by this comparator. That uniqueness argument itself is not proved.
- Leaderboard.RoundNumbers: JavaScript keeps the keys as strings and converts them back with `Number`. For the integer round numbers used here that round trip is the identity and is not modelled.
- The schedule's round loop is split into `RoundLoop`, `PushRound` and `PlayRound`. The standings' nested loops are split into `CreditEntry`, `CreditTeam` and `CreditPlayer`. Each split is the body of one source loop, in the same order.
