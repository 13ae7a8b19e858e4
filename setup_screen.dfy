/**
 * The roster builder (components/setup-screen.tsx): the name being typed,
 * the list of players, and the gate that enables schedule generation.
 */
module SetupScreen {
  import opened Wrappers
  import opened Tournament
  import Schedule
  import ScheduleProperties

  /**
   * The characters `String.prototype.trim` strips: the line terminators, tab,
   * vertical tab, form feed, the byte order mark and every space separator.
   */
  predicate IsSpace(c: char) {
    || c == ' ' || c == '\t' || c == '\n' || c == '\r' || c == '\U{B}' || c == '\U{C}'
    || c == '\U{A0}' || c == '\U{1680}' || ('\U{2000}' <= c <= '\U{200A}')
    || c == '\U{2028}' || c == '\U{2029}' || c == '\U{202F}' || c == '\U{205F}'
    || c == '\U{3000}' || c == '\U{FEFF}'
  }

  /** Drops leading whitespace. */
  function TrimStart(s: string): (r: string)
    ensures |r| <= |s| && r == s[|s| - |r|..]
    ensures r == [] || !IsSpace(r[0])
    ensures forall k :: 0 <= k < |s| - |r| ==> IsSpace(s[k])
  {
    if s != [] && IsSpace(s[0]) then TrimStart(s[1..]) else s
  }

  /** Drops trailing whitespace. */
  function TrimEnd(s: string): (r: string)
    ensures |r| <= |s| && r == s[..|r|]
    ensures r == [] || !IsSpace(r[|r| - 1])
    ensures forall k :: |r| <= k < |s| ==> IsSpace(s[k])
  {
    if s != [] && IsSpace(s[|s| - 1]) then TrimEnd(s[..|s| - 1]) else s
  }

  /** `trim()`: the input without its leading and trailing whitespace. */
  function Trim(s: string): (r: string)
    ensures |r| <= |s|
    ensures r == [] || (!IsSpace(r[0]) && !IsSpace(r[|r| - 1]))
  {
    TrimEnd(TrimStart(s))
  }

  /** Whitespace only. */
  predicate AllSpace(s: string) {
    forall k :: 0 <= k < |s| ==> IsSpace(s[k])
  }

  lemma {:induction false} TrimStartSkips(ws: string, x: string)
    requires AllSpace(ws)
    ensures TrimStart(ws + x) == TrimStart(x)
  {
    if ws == [] {
      assert ws + x == x;
    } else {
      assert (ws + x)[0] == ws[0];
      assert (ws + x)[1..] == ws[1..] + x;
      TrimStartSkips(ws[1..], x);
    }
  }

  lemma {:induction false} TrimEndSkips(x: string, ws: string)
    requires AllSpace(ws)
    ensures TrimEnd(x + ws) == TrimEnd(x)
  {
    if ws == [] {
      assert x + ws == x;
    } else {
      assert (x + ws)[|x + ws| - 1] == ws[|ws| - 1];
      assert (x + ws)[..|x + ws| - 1] == x + ws[..|ws| - 1];
      TrimEndSkips(x, ws[..|ws| - 1]);
    }
  }

  lemma TrimStartKeeps(x: string)
    requires x == [] || !IsSpace(x[0])
    ensures TrimStart(x) == x
  {
  }

  lemma TrimEndKeeps(x: string)
    requires x == [] || !IsSpace(x[|x| - 1])
    ensures TrimEnd(x) == x
  {
  }

  lemma TrimAllSpace(before: string, after: string)
    requires AllSpace(before) && AllSpace(after)
    ensures Trim(before + after) == []
  {
    TrimStartSkips(before, after);
    assert after == after + [];
    TrimStartSkips(after, []);
  }

  lemma TrimPaddedWord(before: string, r: string, after: string)
    requires AllSpace(before) && AllSpace(after)
    requires r != [] && !IsSpace(r[0]) && !IsSpace(r[|r| - 1])
    ensures Trim(before + (r + after)) == r
  {
    var x := r + after;
    TrimStartSkips(before, x);
    assert x[0] == r[0];
    TrimStartKeeps(x);
    TrimEndSkips(r, after);
    TrimEndKeeps(r);
  }

  /**
   * What `trim` means: a string with no whitespace at either end, padded
   * with any whitespace on both sides, trims back to itself.
   */
  lemma TrimSurrounded(before: string, r: string, after: string)
    requires AllSpace(before) && AllSpace(after)
    requires r == [] || (!IsSpace(r[0]) && !IsSpace(r[|r| - 1]))
    ensures Trim(before + r + after) == r
  {
    if r == [] {
      assert before + r + after == before + after;
      TrimAllSpace(before, after);
    } else {
      assert before + r + after == before + (r + after);
      TrimPaddedWord(before, r, after);
    }
  }

  /** Trimming twice is trimming once. */
  lemma TrimIdempotent(s: string)
    ensures Trim(Trim(s)) == Trim(s)
  {
    var r := Trim(s);
    TrimSurrounded([], r, []);
    assert [] + r + [] == r;
  }

  /** A name is empty after trimming exactly when it is whitespace only. */
  lemma TrimEmpty(s: string)
    ensures Trim(s) == [] <==> AllSpace(s)
  {
    var t := TrimStart(s);
    if t != [] {
      assert !IsSpace(t[0]) && t[0] == s[|s| - |t|];
      assert TrimEnd(t) != [];
    } else {
      assert t == s[|s|..];
    }
  }

  /** The rosters the form can build: every name trimmed and non-empty, no name twice. */
  predicate ValidRoster(players: seq<string>) {
    Distinct(players) && forall name :: name in players ==> name != [] && Trim(name) == name
  }

  /** The form's state: the text box and the roster. */
  datatype Form = Form(playerName: string, players: seq<string>)

  /**
   * `addPlayer`: the roster grows by one exactly when the box holds something
   * besides whitespace that, trimmed, is not on the roster yet; the new last
   * name is trimmed and non-empty and the box is cleared. Otherwise nothing
   * changes.
   */
  function Added(form: Form): (r: Form)
    ensures |r.players| >= |form.players| && r.players[..|form.players|] == form.players
    ensures |r.players| == |form.players| + 1
      <==> !AllSpace(form.playerName) && Trim(form.playerName) !in form.players
    ensures |r.players| == |form.players| + 1 ==>
      var x := r.players[|form.players|];
      x != [] && Trim(x) == x && x == Trim(form.playerName) && r.playerName == ""
    ensures |r.players| != |form.players| + 1 ==> r == form
  {
    var trimmed := Trim(form.playerName);
    TrimEmpty(form.playerName);
    if trimmed != [] && trimmed !in form.players then
      TrimIdempotent(form.playerName);
      var players := form.players + [trimmed];
      assert players[..|form.players|] == form.players && players[|form.players|] == trimmed;
      assert !AllSpace(form.playerName);
      Form("", players)
    else
      assert AllSpace(form.playerName) || trimmed in form.players;
      form
  }

  /** `removePlayer(name)`: `players.filter(p => p !== name)`. */
  function Removed(players: seq<string>, name: string): (r: seq<string>)
    ensures name !in r
    ensures forall x :: x != name ==> (x in r <==> x in players)
  {
    if players == [] then []
    else (if players[0] == name then [] else [players[0]]) + Removed(players[1..], name)
  }

  lemma AppendDistinct(s: seq<string>, x: string)
    requires Distinct(s) && x !in s
    ensures Distinct(s + [x])
  {
    var r := s + [x];
    forall i, j | 0 <= i < j < |r| ensures r[i] != r[j] {
      assert r[i] == s[i];
      if j < |s| {
        assert r[j] == s[j];
      } else {
        assert r[i] in s;
      }
    }
  }

  lemma AddKeepsValid(form: Form)
    requires ValidRoster(form.players)
    ensures ValidRoster(Added(form).players)
  {
    var r := Added(form);
    if |r.players| == |form.players| + 1 {
      var x := r.players[|form.players|];
      assert r.players == form.players + [x];
      AppendDistinct(form.players, x);
      assert forall name :: name in r.players ==> name in form.players || name == x;
    }
  }

  /** Typing the same name again after it was added changes nothing. */
  lemma AddTwice(form: Form, typed: string)
    requires form.playerName == typed
    ensures Added(Added(form).(playerName := typed)) == Added(form).(playerName := typed)
  {
  }

  /** Removing a name that occurs once drops exactly that entry and keeps the rest in order. */
  lemma {:induction false} RemoveAt(players: seq<string>, k: int)
    requires Distinct(players) && 0 <= k < |players|
    ensures Removed(players, players[k]) == players[..k] + players[k + 1..]
  {
    if k == 0 {
      NotInRemovedUnchanged(players[1..], players[0]);
    } else {
      assert Distinct(players[1..]);
      RemoveAt(players[1..], k - 1);
      assert players[1..][k - 1] == players[k];
      assert players[1..][..k - 1] + players[1..][k..] == players[1..k] + players[k + 1..];
      assert players[..k] == [players[0]] + players[1..k];
    }
  }

  /** Removing a name that is not on the roster changes nothing. */
  lemma {:induction false} NotInRemovedUnchanged(players: seq<string>, name: string)
    requires name !in players
    ensures Removed(players, name) == players
  {
    if players != [] {
      assert name !in players[1..];
      NotInRemovedUnchanged(players[1..], name);
    }
  }

  lemma {:induction false} RemovedDistinct(players: seq<string>, name: string)
    requires Distinct(players)
    ensures Distinct(Removed(players, name))
  {
    if players != [] {
      assert Distinct(players[1..]);
      RemovedDistinct(players[1..], name);
      var rest := Removed(players[1..], name);
      if players[0] != name {
        assert players[0] !in players[1..];
        assert players[0] !in rest;
        var r := [players[0]] + rest;
        forall i, j | 0 <= i < j < |r| ensures r[i] != r[j] {
          if i == 0 {
            assert r[j] == rest[j - 1];
          } else {
            assert r[i] == rest[i - 1] && r[j] == rest[j - 1];
          }
        }
      }
    }
  }

  lemma RemoveKeepsValid(players: seq<string>, name: string)
    requires ValidRoster(players)
    ensures ValidRoster(Removed(players, name))
  {
    RemovedDistinct(players, name);
  }

  /** Removing the name just added restores the roster. */
  lemma RemoveUndoesAdd(form: Form)
    requires ValidRoster(form.players)
    requires Trim(form.playerName) != [] && Trim(form.playerName) !in form.players
    ensures Removed(Added(form).players, Trim(form.playerName)) == form.players
  {
    var t := Trim(form.playerName);
    var ps := form.players + [t];
    AppendDistinct(form.players, t);
    RemoveAt(ps, |form.players|);
    assert ps[..|form.players|] == form.players;
  }

  /** `canGenerate`: at least four players. */
  function CanGenerate(players: seq<string>): bool {
    |players| >= 4
  }

  /** `isOdd`: an odd roster that can be scheduled. */
  function IsOdd(players: seq<string>): bool {
    |players| % 2 != 0 && |players| >= 4
  }

  /**
   * The gate promises a real tournament: a roster that passes it gets at
   * least three rounds, and with an odd roster every round has a resting
   * player while with an even one no round does.
   */
  lemma GateMeaning(players: seq<string>, courts: int, r: int)
    requires Schedule.ByeSlot !in players && CanGenerate(players)
    requires 0 <= r < |Schedule.FullSchedule(players, courts)|
    ensures |Schedule.FullSchedule(players, courts)| >= 3
    ensures Schedule.FullSchedule(players, courts)[r].bye.Some? <==> IsOdd(players)
  {
    ScheduleProperties.ScheduleShape(players, courts);
    if |players| % 2 == 0 {
      ScheduleProperties.ByeEven(players, courts, r);
    } else {
      ScheduleProperties.ByeOdd(players, courts, r);
    }
  }

  /** The digit character for 0 to 9. */
  function Digit(d: int): (c: char)
    requires 0 <= d <= 9
    ensures '0' <= c <= '9' && c as int - '0' as int == d
  {
    ['0', '1', '2', '3', '4', '5', '6', '7', '8', '9'][d]
  }

  /** The label of the generate button. */
  function ButtonLabel(players: seq<string>): (text: string)
    ensures CanGenerate(players) ==> text == "Generate Schedule"
    ensures !CanGenerate(players) ==>
      |text| == (if |players| == 3 then 17 else 18)
      && text[..4] == "Add " && |players| + (text[4] as int - '0' as int) == 4
      && text[5..17] == " more player"
      && (text[|text| - 1] == 's' <==> |players| != 3)
  {
    if CanGenerate(players) then "Generate Schedule"
    else
      var missing := 4 - |players|;
      "Add " + [Digit(missing)] + " more player" + (if missing != 1 then "s" else "")
  }

  /** The component's state fields. */
  class SetupForm {
    var playerName: string
    var players: seq<string>

    function State(): Form
      reads this
    {
      Form(playerName, players)
    }

    constructor ()
      ensures State() == Form("", []) && ValidRoster(players)
    {
      playerName := "";
      players := [];
    }

    method AddPlayer()
      modifies this
      ensures State() == Added(old(State()))
      ensures old(ValidRoster(players)) ==> ValidRoster(players)
    {
      if ValidRoster(players) {
        AddKeepsValid(State());
      }
      var trimmed := Trim(playerName);
      if trimmed != [] && trimmed !in players {
        players := players + [trimmed];
        playerName := "";
      }
    }

    method RemovePlayer(name: string)
      modifies this
      ensures State() == old(State()).(players := Removed(old(players), name))
      ensures old(ValidRoster(players)) ==> ValidRoster(players)
    {
      if ValidRoster(players) {
        RemoveKeepsValid(players, name);
      }
      players := Removed(players, name);
    }
  }
}
