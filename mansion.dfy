/** The mansion map and the expedition through it.

    A room (`Sala`) has a name, a clue text that may be empty, and up to two
    doors, left and right. Nothing writes to a room once the map is built (in
    this program a room's clue is never cleared), so rooms are values here and
    the player's cursor is the room it stands in.

    One turn of `explorarSalasComPistas` collects the room's clue, if it has
    one, into the inventory, then reads a one-character command: `e`/`E` goes
    through the left door and `d`/`D` through the right one when that door
    exists (otherwise the player stays), `s`/`S` ends the loop, and anything
    else is rejected. The commands are given as a script, the characters the
    console would deliver one per turn. */
module Mansion {
  import opened ClueTree
  import opened ClueStore

  datatype Option<T> = None | Some(value: T)

  datatype Room = Room(name: string, clue: string, left: Option<Room>, right: Option<Room>)

  /** The state after a turn: where the player stands, what has been
      collected, and whether the player asked to stop. */
  datatype Expedition = Expedition(room: Room, inventory: Tree, stopped: bool)

  predicate IsLeftCommand(c: char) { c == 'e' || c == 'E' }
  predicate IsRightCommand(c: char) { c == 'd' || c == 'D' }
  predicate IsStopCommand(c: char) { c == 's' || c == 'S' }

  /** The clue a room yields, as a set: nothing when its clue text is empty. */
  function ClueIn(room: Room): set<string>
  {
    if |room.clue| > 0 then {room.clue} else {}
  }

  /** `criarSala(nome, pista)`: a room with the given name and clue and no
      doors yet, so that no command can take the player out of it. */
  function CreateRoom(name: string, clue: string): (r: Room)
    ensures r.name == name && r.clue == clue
    ensures forall c :: Next(r, c) == r
  {
    Room(name, clue, None, None)
  }

  /** Where a command takes the player: through the named door if the room
      has it, otherwise nowhere. */
  function Next(room: Room, c: char): (next: Room)
    ensures next == room || (IsLeftCommand(c) && room.left == Some(next))
                         || (IsRightCommand(c) && room.right == Some(next))
    ensures IsLeftCommand(c) && room.left.Some? ==> next == room.left.value
    ensures IsRightCommand(c) && room.right.Some? ==> next == room.right.value
  {
    if IsLeftCommand(c) then
      (if room.left.Some? then room.left.value else room)
    else if IsRightCommand(c) then
      (if room.right.Some? then room.right.value else room)
    else
      room
  }

  /** The collection step of a turn: a non-empty clue is inserted into the
      inventory, an empty one leaves it alone. */
  function Collect(room: Room, inventory: Tree): (r: Tree)
    ensures Contents(r) == Contents(inventory) + ClueIn(room)
    ensures |room.clue| == 0 ==> r == inventory
  {
    if |room.clue| > 0 then Insert(inventory, room.clue) else inventory
  }

  /** One turn: collect, read `c`, act on it. */
  function Step(room: Room, inventory: Tree, c: char): (e: Expedition)
    ensures e.stopped <==> IsStopCommand(c)
    ensures e.room == Next(room, c)
    ensures IsStopCommand(c) ==> e.room == room
    ensures Contents(e.inventory) == Contents(inventory) + ClueIn(room)
    ensures |room.clue| == 0 ==> e.inventory == inventory
  {
    Expedition(Next(room, c), Collect(room, inventory), IsStopCommand(c))
  }

  /** The whole loop over a script: turns follow one another until a stop
      command is read. When the script runs out, the turn that was waiting for
      a command has already collected its room's clue, and the run ends there
      without a stop. */
  function Run(room: Room, inventory: Tree, script: seq<char>): (e: Expedition)
    ensures Contents(inventory) + ClueIn(room) <= Contents(e.inventory)
    ensures e.stopped ==> exists i :: 0 <= i < |script| && IsStopCommand(script[i])
    decreases |script|
  {
    if script == [] then
      Expedition(room, Collect(room, inventory), false)
    else
      var e := Step(room, inventory, script[0]);
      if e.stopped then e else Run(e.room, e.inventory, script[1..])
  }

  /** The rooms in which the turns of a run begin, in order. */
  function Trail(room: Room, script: seq<char>): (rooms: seq<Room>)
    ensures |rooms| > 0 && rooms[0] == room
    decreases |script|
  {
    if script == [] || IsStopCommand(script[0]) then [room]
    else [room] + Trail(Next(room, script[0]), script[1..])
  }

  /** The clues found in a sequence of rooms. */
  function CluesAlong(rooms: seq<Room>): set<string>
  {
    if rooms == [] then {} else ClueIn(rooms[0]) + CluesAlong(rooms[1..])
  }

  /** `r` is `m` or a room reachable from `m` through doors. */
  predicate Within(r: Room, m: Room)
    decreases m
  {
    r == m ||
    (m.left.Some? && Within(r, m.left.value)) ||
    (m.right.Some? && Within(r, m.right.value))
  }

  /** Collecting keeps the inventory a search tree. */
  lemma CollectKeepsOrder(room: Room, inventory: Tree)
    requires IsBst(inventory)
    ensures IsBst(Collect(room, inventory))
  {
    if |room.clue| > 0 {
      InsertKeepsOrder(inventory, room.clue);
    }
  }

  /** Visiting a room again adds nothing: its clue is already in the
      inventory and inserting it again is a no-op. */
  lemma RevisitIdempotent(room: Room, inventory: Tree, c: char, c': char)
    ensures Step(room, Step(room, inventory, c).inventory, c').inventory
         == Step(room, inventory, c).inventory
  {
    if |room.clue| > 0 {
      InsertIdempotent(inventory, room.clue);
    }
  }

  /** A command that is neither a move nor a stop changes nothing once the
      room's clue is in the inventory: same room, same inventory, no stop. */
  lemma RejectedCommandChangesNothing(room: Room, inventory: Tree, c: char)
    requires !IsLeftCommand(c) && !IsRightCommand(c) && !IsStopCommand(c)
    requires IsBst(inventory) && ClueIn(room) <= Contents(inventory)
    ensures Step(room, inventory, c) == Expedition(room, inventory, false)
  {
    if |room.clue| > 0 {
      assert room.clue in ClueIn(room);
      InsertPresent(inventory, room.clue);
    }
  }

  /** A run ends in the last room of its trail, and its inventory holds the
      old texts plus the clues of the rooms on the trail, nothing else. */
  lemma {:induction false} RunCollectsTrail(room: Room, inventory: Tree, script: seq<char>)
    ensures var e, t := Run(room, inventory, script), Trail(room, script);
      e.room == t[|t| - 1] &&
      Contents(e.inventory) == Contents(inventory) + CluesAlong(t)
    decreases |script|
  {
    var t := Trail(room, script);
    if script == [] || IsStopCommand(script[0]) {
      assert t == [room] && t[1..] == [];
    } else {
      var next, rest := Next(room, script[0]), script[1..];
      RunCollectsTrail(next, Collect(room, inventory), rest);
      assert t[1..] == Trail(next, rest);
    }
  }

  /** Whatever the script, a run keeps the inventory a search tree. */
  lemma {:induction false} RunKeepsOrder(room: Room, inventory: Tree, script: seq<char>)
    requires IsBst(inventory)
    ensures IsBst(Run(room, inventory, script).inventory)
    decreases |script|
  {
    CollectKeepsOrder(room, inventory);
    if script != [] && !IsStopCommand(script[0]) {
      RunKeepsOrder(Next(room, script[0]), Collect(room, inventory), script[1..]);
    }
  }

  /** A run ends stopped exactly when its script holds a stop command; if it
      holds none, the run goes on until the script runs out. */
  lemma {:induction false} RunStopsOnStopCommand(room: Room, inventory: Tree, script: seq<char>)
    ensures Run(room, inventory, script).stopped <==>
      exists i :: 0 <= i < |script| && IsStopCommand(script[i])
    decreases |script|
  {
    if script != [] && !IsStopCommand(script[0]) {
      var rest := script[1..];
      RunStopsOnStopCommand(Next(room, script[0]), Collect(room, inventory), rest);
      if exists i :: 0 <= i < |script| && IsStopCommand(script[i]) {
        var i :| 0 <= i < |script| && IsStopCommand(script[i]);
        assert rest[i - 1] == script[i];
      }
      if exists i :: 0 <= i < |rest| && IsStopCommand(rest[i]) {
        var i :| 0 <= i < |rest| && IsStopCommand(rest[i]);
        assert script[i + 1] == rest[i];
      }
    }
  }

  /** A door leads to a room inside the same map. */
  lemma {:induction false} DoorsStayWithin(room: Room, m: Room)
    requires Within(room, m)
    ensures room.left.Some? ==> Within(room.left.value, m)
    ensures room.right.Some? ==> Within(room.right.value, m)
    decreases m
  {
    if room != m {
      if m.left.Some? && Within(room, m.left.value) {
        DoorsStayWithin(room, m.left.value);
      } else {
        DoorsStayWithin(room, m.right.value);
      }
    }
  }

  /** Every room on a trail that starts inside the map is inside the map:
      moves only follow doors that exist, so the cursor is never null. */
  lemma {:induction false} TrailStaysWithin(room: Room, m: Room, script: seq<char>)
    requires Within(room, m)
    ensures forall k :: 0 <= k < |Trail(room, script)| ==> Within(Trail(room, script)[k], m)
    decreases |script|
  {
    if script != [] && !IsStopCommand(script[0]) {
      DoorsStayWithin(room, m);
      TrailStaysWithin(Next(room, script[0]), m, script[1..]);
    }
  }

  /** The final report of an expedition from an empty inventory: strictly
      ascending, and it lists exactly the clues of the rooms visited. */
  lemma ReportListsVisitedCluesInOrder(mansion: Room, script: seq<char>)
    ensures var report := InOrder(Run(mansion, Empty, script).inventory);
      StrictlyAscending(report) &&
      forall y :: y in report <==> y in CluesAlong(Trail(mansion, script))
  {
    RunCollectsTrail(mansion, Empty, script);
    RunKeepsOrder(mansion, Empty, script);
    InOrderAscending(Run(mansion, Empty, script).inventory);
  }

  /** `explorarSalasComPistas(mapaInicial)` driven by a script: the turn loop
      updates the cursor, the inventory root and the last command read, and
      ends on `s`/`S` or when the script runs out. It returns the inventory
      and the lines of the final report, and they are those of `Run`. */
  method Explore(mansion: Room, script: seq<char>) returns (inventory: ClueNode?, report: seq<string>)
    ensures inventory != null ==> inventory.Valid() && fresh(inventory.Repr)
    ensures TreeOf(inventory) == Run(mansion, Empty, script).inventory
    ensures report == InOrder(Run(mansion, Empty, script).inventory)
  {
    var atual := mansion;
    inventory := null;
    var escolha := ' ';
    var i := 0;
    var exhausted := false;
    while escolha != 's' && escolha != 'S' && !exhausted
      invariant 0 <= i <= |script|
      invariant inventory != null ==> inventory.Valid() && fresh(inventory.Repr)
      invariant !IsStopCommand(escolha) && !exhausted ==>
        Run(mansion, Empty, script) == Run(atual, TreeOf(inventory), script[i..])
      invariant IsStopCommand(escolha) || exhausted ==>
        Run(mansion, Empty, script) == Expedition(atual, TreeOf(inventory), !exhausted)
      decreases |script| - i, !exhausted
    {
      ghost var before := Run(atual, TreeOf(inventory), script[i..]);
      ghost var here, held := atual, TreeOf(inventory);
      if |atual.clue| > 0 {
        inventory := InsertClue(inventory, atual.clue);
      }
      assert TreeOf(inventory) == Collect(here, held);
      if i == |script| {
        exhausted := true;
      } else {
        escolha := script[i];
        assert script[i..][0] == escolha && script[i..][1..] == script[i + 1..];
        i := i + 1;
        if escolha == 'e' || escolha == 'E' {
          if atual.left.Some? {
            atual := atual.left.value;
          }
        } else if escolha == 'd' || escolha == 'D' {
          if atual.right.Some? {
            atual := atual.right.value;
          }
        }
        assert atual == Next(here, escolha);
      }
    }
    report := ListClues(inventory);
  }
}
