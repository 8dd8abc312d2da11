# Detective Quest: clue inventory and mansion expedition

A model of the game core in `detective_quest.c`. The player walks a fixed
binary tree of rooms (`Sala`). Each room may hide a clue. Each clue found goes
into an inventory kept as a binary search tree of texts (`NoPista`). The tree
is ordered by `strcmp`, and an insertion of a text already present is a no-op.
At the end the inventory is printed by an in-order walk.

Modules:

- `TextOrder` (`text_order.dfy`): the order `strcmp` puts on texts, as the
  predicate `Less`. Characters are compared one by one, and a proper prefix
  sorts first. Lemmas show it is a strict total order.
- `ClueTree` (`clue_tree.dfy`): the inventory as a value. `Insert` is
  `inserirPista` and `InOrder` is the walk of `exibirPistas`. Lemmas cover the
  search-tree invariant, the contents and the sorted listing.
- `ClueStore` (`clue_store.dfy`): the inventory as the program keeps it, in
  `NoPista` nodes on the heap. `InsertClue` reassigns child links in place.
  Each node carries ghost state, its footprint and its value, and the methods
  are proved to compute `Insert` and `InOrder` of that value.
- `Mansion` (`mansion.dfy`): rooms, `criarSala`, one turn (`Step`), a whole
  run over a scripted command sequence (`Run`), and `Explore`. `Explore` is
  the `while` loop of `explorarSalasComPistas`, proved to end in the state
  `Run` describes.
- `Tour` (`tour.dfy`): the map that `main` builds, and two concrete runs over
  it.

The game reads its commands from the console. The model takes them as a
script: the sequence of characters that `scanf(" %c", ...)` would return, one
per turn, with whitespace already skipped.

The model follows what this version of the code does:

- The code never clears a room's clue. The line is commented out at
  `detective_quest.c:116-117`. So revisiting a room inserts its clue again,
  and the search tree's duplicate check makes that harmless
  (`Mansion.RevisitIdempotent`).
- This version has no suspect table and no accusation or verdict, so
  neither is modelled.

## Model

| member | source | states |
|---|---|---|
| `TextOrder.Less` | detective_quest.c:44-49 | `strcmp(a, b) < 0` never holds for equal texts; `LessFirstDifference` gives its exact meaning, and `LessIrreflexive`, `LessTransitive`, `LessTrichotomy` and `PrefixFirst` make it a strict total order in which a prefix sorts first |
| `TextOrder.LessFirstDifference` | detective_quest.c:44-49 | `strcmp(a, b) < 0` exactly when the texts agree up to some position at which `a` has ended while `b` goes on, or `a` holds the smaller character |
| `TextOrder.LessIrreflexive` | detective_quest.c:44-49 | no text compares below itself, so the `== 0` test and the `< 0` test at a node never both hold |
| `TextOrder.LessTransitive` | detective_quest.c:49-55 | the `strcmp` order is transitive, which the in-order listing relies on |
| `TextOrder.LessTrichotomy` | detective_quest.c:44-55 | two texts are equal, or exactly one sorts before the other; a text that is neither equal to nor below the node's text sorts after it and goes right |
| `TextOrder.PrefixFirst` | detective_quest.c:49 | a proper prefix sorts before the longer text, as `strcmp` orders it |
| `ClueTree.Insert` | detective_quest.c:33-58 | after an insertion the tree holds exactly the old texts plus the new one; inserting into an empty tree gives a single node holding exactly that text |
| `ClueTree.InOrder` | detective_quest.c:65-71 | the in-order walk lists every stored text and nothing else |
| `ClueTree.InsertPresent` | detective_quest.c:44-46 | in a search tree, inserting a text already present leaves the tree unchanged |
| `ClueTree.InsertIdempotent` | detective_quest.c:33-58 | inserting the same text a second time changes nothing, in any tree: the second insertion follows the first one's path and stops at the equal text |
| `ClueTree.InsertKeepsOrder` | detective_quest.c:48-55 | insertion preserves the search-tree ordering: left-subtree texts sort before the node, right-subtree texts after it |
| `ClueTree.InOrderAscending` | detective_quest.c:60-71 | the in-order walk of a search tree is strictly ascending under the `strcmp` order |
| `ClueTree.AscendingDistinct` | detective_quest.c:60-71 | a strictly ascending listing never repeats a text |
| `ClueTree.AscendingDetermined` | detective_quest.c:60-71 | two strictly ascending listings of the same texts are identical |
| `ClueTree.BuildSorted` | detective_quest.c:33-71 | whatever the insertion order, the tree built by successive insertions is a search tree, holds exactly the inserted texts, and lists them strictly ascending |
| `ClueTree.ListingIgnoresInsertionOrder` | detective_quest.c:60-71 | any two insertion orders of the same texts produce the same printed listing |
| `ClueStore.ClueNode.constructor` | detective_quest.c:35-41 | the node allocated at a null link is a valid single-node tree holding the text, with both links null |
| `ClueStore.InsertClue` | detective_quest.c:33-58 | the heap insertion returns a valid tree whose value is `Insert` of the old value; a non-null root is returned unchanged as the root; only nodes of the old tree are modified, and any other node is new |
| `ClueStore.InsertLeft` | detective_quest.c:49-51 | reassigning the left link to the result of the recursive insertion keeps the node valid and gives the value `Insert` of the old one |
| `ClueStore.InsertRight` | detective_quest.c:52-55 | reassigning the right link to the result of the recursive insertion keeps the node valid and gives the value `Insert` of the old one |
| `ClueStore.ListClues` | detective_quest.c:65-71 | the heap walk yields exactly the in-order listing of the tree's value |
| `Mansion.CreateRoom` | detective_quest.c:81-88 | a new room holds the given name and clue and has no doors, so no command can move the player out of it |
| `Mansion.Next` | detective_quest.c:136-147 | a command moves the player only through an existing door in the direction it names (`e`/`E` left, `d`/`D` right), and a move command through an existing door is always taken; otherwise the room is unchanged |
| `Mansion.Collect` | detective_quest.c:111-120 | a room with a non-empty clue adds exactly that clue to the inventory's texts; a room with an empty clue leaves the inventory unchanged |
| `Mansion.Step` | detective_quest.c:101-148 | a turn ends in the room `Next` gives for the command read (through the named door if it exists, else the same room), so a rejected or blocked command leaves the player in place; it stops exactly on `s`/`S`; it adds the room's clue, if any, to the inventory's texts, and nothing else |
| `Mansion.Run` | detective_quest.c:94-148 | the whole turn loop over a script: the starting texts and the first room's clue are always kept, and a run ends stopped only if the script holds `s` or `S`; `RunCollectsTrail`, `RunKeepsOrder` and `RunStopsOnStopCommand` state the rest |
| `Mansion.CollectKeepsOrder` | detective_quest.c:112-115 | collecting a clue keeps the inventory a search tree |
| `Mansion.RevisitIdempotent` | detective_quest.c:112-117 | a second turn in the same room, whatever the commands, leaves the inventory as the first turn left it, although the clue is never cleared from the room |
| `Mansion.RejectedCommandChangesNothing` | detective_quest.c:145-146 | an unrecognised command, once the room's clue is in the inventory, leaves room and inventory unchanged and does not stop the loop |
| `Mansion.RunCollectsTrail` | detective_quest.c:94-148 | a run ends in the last room where a turn began; its inventory holds the starting texts plus the clues of exactly the rooms where turns began |
| `Mansion.RunKeepsOrder` | detective_quest.c:94-148 | whatever the script, the inventory stays a search tree |
| `Mansion.RunStopsOnStopCommand` | detective_quest.c:102 | a run ends stopped exactly when its script contains `s` or `S` |
| `Mansion.DoorsStayWithin` | detective_quest.c:137-143 | a door of a room inside the map leads to a room inside the map |
| `Mansion.TrailStaysWithin` | detective_quest.c:103-106 | every room where a turn begins lies inside the map, so the cursor is never null |
| `Mansion.ReportListsVisitedCluesInOrder` | detective_quest.c:150-159 | the final report of an expedition is strictly ascending and lists exactly the clues of the rooms visited |
| `Mansion.Explore` | detective_quest.c:94-161 | the turn loop over a script ends with a valid, newly allocated inventory whose value is the one `Run` gives; it returns the report lines, which are that inventory's in-order listing |
| `Tour.KitchenThenDeadEnd` | detective_quest.c:167-188 | on `main`'s map, the script `exdes` (kitchen, rejected `x`, dining room, blocked left, stop) stops in the dining room with only the kitchen's clue |
| `Tour.DownToTheVault` | detective_quest.c:167-188 | on `main`'s map, the script `ded` reaches the secret vault and lists the study's clue before the vault's |

## Left out

- Console output and input (`printf`, `scanf`): prompts, room announcements and report wording are not modelled. Commands come from a script, and the report is returned as the list of clue texts that `exibirPistas` prints.
- End of input: `Run` and `Explore` end when the script runs out, after the waiting turn has collected its room's clue. The real loop would not end there, because `scanf` at end of input leaves the last command in place and the loop repeats it.
- `malloc`, `strcpy` and the fixed `char[100]`/`char[50]` buffers: texts are unbounded sequences. Overflow of a buffer is undefined behaviour, not specified behaviour, and allocation failure is not modelled.
- Texts are sequences of characters compared by code point. `strcmp` compares the bytes as `unsigned char`. For UTF-8 text the two orders agree. The model does not truncate a text at an embedded NUL, which a C string cannot hold anyway.
- The null-room branch at `detective_quest.c:103-106` is not modelled. It cannot be reached: moves only follow doors that exist (`Mansion.TrailStaysWithin`).
- Rooms are values, not heap objects. No `Sala` field is written while the loop runs, so aliasing cannot be observed. `main`'s in-place linking of rooms is represented only by the finished map in `Tour`.
- `ClueStore.InsertClue`: the single recursive C function is split into `InsertClue` plus `InsertLeft` and `InsertRight`, one for each link assignment, so that each proof stays small. The recursion and the pointer updates are the same.
- Memory release: the program frees nothing, and neither does the model.
