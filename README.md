# RBG battle core, modelled in Dafny

RBG is a small browser battle game. Three party members, Rojo, Blue and
Midori, fight one enemy. Each turn has the same shape:

- each living character chooses to attack or defend from a two-item action menu;
- the player swaps neighbouring spheres on an 8 x 9 grid;
- a solve clears every group of three or more equal spheres and feeds them into
  five stock counters (red, cyan, green, yellow, key);
- the turn resolves: attackers add their own colour's stock and the key stock
  to their attack, and the enemy strikes back at a random living character,
  whose own-colour and yellow stock soak the damage when that character defended.

Around the battle sit three small libraries:

- a dialog box with a script language (`<red>…</red>`, `<green>`, `<blue>`, `<delay>`);
- a keyboard menu whose items link to their neighbours;
- a tile-text writer that encodes strings as glyph-sheet indexes and writes them
  into a tile layer.

The project models these parts:

- `Grid`, `Groups`, `Solve`, `Swap`: the sphere grid, the recursive flood fill
  that finds groups, the solve (match, credit, clear, collapse, refill) and
  sphere swapping with the move-phase cursor. The grid is an `array` updated
  in place.
- `Combat`: the battle numbers and `BattleState`. This is a class whose
  `ExecuteTurn` updates the party, the enemy and the stocks. It is proved
  against the function `Turn`.
- `StockDisplay`: the capped stock counter display.
- `Flow`: the battle's phase machine (intro, action choice, move phase, swap
  choice, swap, solve, turn result, victory, game over). It also covers the
  turn inputs the action menus collect.
- `Dialog`: the script tokeniser, `loadScript` (a loop proved against a fold),
  `setText` and `animateScript`'s script joining.
- `Menus`: `horizontalMenuItems` and `verticalMenuItems`, and the `Menu`
  class with its cursor, selection and input pause. The tables they build
  list their keys in JavaScript's own-property order (OrdinaryOwnPropertyKeys,
  section 10.1.11.1 of ECMA-262): keys that are array indices come first, in
  ascending numeric order, then the other keys in the order they were
  created. The game's battle menu, keyed `defend` and `attack`, has no
  array-index key.
- `TileText`: `parseText`, `indexesToText` and the `Text` class over an
  `array2` tile layer.
- `Util`: the grid move, direction and clamp helpers that the battle imports
  from its shared utility module.

Random draws are parameters:

- the enemy's target is an index into the living characters;
- the damage roll is in [0, 25);
- the refill of a cleared cell is an oracle from (column, row) to a sphere type.

## Model

| member | source | states |
|---|---|---|
| Util.GridMove | src/scenes/battle.ts:1741-1743 | the cell moved to is one grid step away: up and down keep the column, down and right increase x + y, up and left decrease it |
| Util.MoveBack | src/scenes/battle.ts:1141 | moving in the opposite direction returns to the cell moved from, and the opposite of the opposite is the direction itself |
| Util.Opposite | src/scenes/battle.ts:1141 | the reverse direction differs from the direction |
| Util.Clamp | src/scenes/battle.ts:1547-1551 | the result lies in [lo, hi], equals v inside the range and the nearer bound outside it |
| Util.Max | src/scenes/battle.ts:514-518 | the maximum is at least both arguments and is one of them |
| Grid.TypeRank | src/scenes/battle.ts:1111 | each sphere type sits at its rank in SPHERE_TYPES |
| Grid.RankOfListed | src/scenes/battle.ts:1111 | SPHERE_TYPES has no repeats |
| Grid.Index | src/scenes/battle.ts:1203-1207 | a sphere's index x + y * 8 is below 72 and gives back its column and row |
| Grid.IndexOfCoordinates | src/scenes/battle.ts:1203-1207 | every index below 72 is the index of its own column and row |
| Grid.GetSphere | src/scenes/battle.ts:387-393 | a cell is returned exactly when (x, y) is on the grid, and it is the cell at that column and row |
| Grid.Neighbour | src/scenes/battle.ts:1741-1745 | a neighbour found on the grid is edge-adjacent to the cell |
| Grid.NeighbourSymmetric | src/scenes/battle.ts:1741-1745 | stepping back the opposite way returns to the starting cell |
| Grid.AdjacentIsNeighbour | src/scenes/battle.ts:1741-1745 | every edge-adjacent cell is reached by one of the four directions |
| Groups.FindGroup | src/scenes/battle.ts:1741-1753 | the flood fill adds fresh, distinct cells of the start's type, each adjacent to an earlier member; visited grows by exactly those cells, and every same-type neighbour of the start ends up visited |
| Groups.VisitNeighbour | src/scenes/battle.ts:1742-1750 | one loop pass keeps what the fill has achieved and leaves the neighbour in that direction visited when it matches |
| Groups.GrownStep | src/scenes/battle.ts:1745-1749 | a recursive fill from a matching fresh neighbour extends the caller's fill |
| Groups.GrownStart | src/scenes/battle.ts:1741 | a fill that has added nothing is consistent |
| Groups.ClosedInAllDirections | src/scenes/battle.ts:1742 | closure towards each of the four directions is closure at the cell |
| Groups.FoundGroup | src/scenes/battle.ts:1761-1769 | a fill started from an unvisited cell returns a group (distinct, one type, connected, maximal) of cells that no earlier group holds |
| Groups.EdgeIntoMembers | src/scenes/battle.ts:1761-1769 | a same-type neighbour of a grouped cell is grouped too |
| Groups.DisjointAppend | src/scenes/battle.ts:1761-1769 | adding a group of fresh cells keeps all groups disjoint |
| Groups.FindGroups | src/scenes/battle.ts:1759-1769 | the groups partition the grid: every cell is in exactly one group, once, and each group is a maximal 4-connected set of equal spheres |
| Solve.Flat | src/scenes/battle.ts:1782 | a cell is in the flattened list exactly when some group holds it |
| Solve.MatchGroups | src/scenes/battle.ts:1772 | exactly the groups of three or more are kept |
| Solve.OfType | src/scenes/battle.ts:1775 | exactly the groups whose first sphere has type t are kept |
| Solve.MatchedOfType | src/scenes/battle.ts:1774-1779 | the matched cells of a type are matched cells |
| Solve.Survivors | src/scenes/battle.ts:1820 | the filter keeps only spheres and is no longer than the column |
| Solve.LastHole | src/scenes/battle.ts:1826 | findLastIndex gives an empty row with only spheres below it, or -1 when the column is full |
| Solve.SurvivorsAndHoles | src/scenes/battle.ts:1820-1821 | survivors and empty cells add up to the column's height |
| Solve.SurvivorsShorter | src/scenes/battle.ts:1815-1821 | a column with an empty cell loses a cell to the filter, so the refill pads it |
| Solve.CollapsedShape | src/scenes/battle.ts:1820-1824 | the collapsed column is full: its top cells are the refill's draws, and below them the survivors sit at the bottom in their order |
| Solve.CollapsedBelowLastHole | src/scenes/battle.ts:1826-1831 | rows below the last empty row keep their spheres, so rewriting only rows 0..animEnd yields the collapsed column |
| Solve.SettledFull | src/scenes/battle.ts:1815-1831 | a settled column has no empty cell |
| Solve.GravityColumn | src/scenes/battle.ts:1807-1842 | each column of the collapsed grid is that column settled on its own |
| Solve.GravityFull | src/scenes/battle.ts:1807-1842 | no cell is empty after the collapse |
| Solve.WholeOrNothing | src/scenes/battle.ts:1772-1800 | a cell is cleared exactly when its group has three or more cells |
| Solve.MatchGroupsDisjoint | src/scenes/battle.ts:1772 | the groups that are kept stay disjoint |
| Solve.OfTypeDisjoint | src/scenes/battle.ts:1775 | the groups of one type stay disjoint |
| Solve.FlatDistinct | src/scenes/battle.ts:1775 | disjoint groups without repeats flatten without repeats |
| Solve.DistinctCard | src/scenes/battle.ts:1789 | a list without repeats has as many cells as positions |
| Solve.MatchedOfTypeCells | src/scenes/battle.ts:1774-1779 | a cell is in a type's matched list exactly when it is matched and holds that type |
| Solve.CreditCount | src/scenes/battle.ts:1787-1790 | each type's credit equals the number of distinct matched cells of that type |
| Solve.MatchedInGrid | src/scenes/battle.ts:1799-1801 | the cells to clear are grid cells |
| Solve.SolvedFull | src/scenes/battle.ts:1757-1850 | a solve leaves a full grid full |
| Solve.UntouchedColumn | src/scenes/battle.ts:1813-1815 | a column with no matched cell is skipped: nothing moves and nothing is refilled |
| Solve.SolvedColumn | src/scenes/battle.ts:1807-1842 | each solved column is the cleared column collapsed, and keeps its cells below its last cleared row |
| Solve.ClearCells | src/scenes/battle.ts:1799-1801 | the listed cells are emptied and every other cell kept |
| Solve.Collapse | src/scenes/battle.ts:1805-1842 | every column is settled, left to right |
| Solve.CollapseColumn | src/scenes/battle.ts:1806-1841 | the column's rows up to the last empty row are rewritten with the collapsed column; other columns are untouched |
| Solve.SolveGrid | src/scenes/battle.ts:1757-1850 | the groups partition the old grid; the grid becomes the solved grid; each stock grows by its type's matched cells; party and enemy are unchanged |
| Solve.CreditStock | src/scenes/battle.ts:1773-1790 | each type's stock grows by the number of its matched cells and nothing else changes |
| Swap.Swapped | src/scenes/battle.ts:1733-1734 | the two cells trade contents and every other cell is kept |
| Swap.SwappedKeepsSpheres | src/scenes/battle.ts:1733-1734 | a swap keeps the multiset of spheres |
| Swap.SwappedTwice | src/scenes/battle.ts:1733-1734 | swapping the same two cells again, in either order, undoes the swap |
| Swap.SwapSpheres | src/scenes/battle.ts:1702-1739 | the destination is the grid move from the held cell; the grid becomes the swapped grid |
| Swap.DirectionRank | src/scenes/battle.ts:1679-1690 | the order up, down, left, right |
| Swap.KeyboardChoice | src/scenes/battle.ts:1673-1690 | releasing both space and the pointer returns to the move phase; a swap is towards a held arrow whose destination is on the grid, with no earlier held arrow also allowed; holding stays only when no held arrow is allowed |
| Swap.CellAt | src/scenes/battle.ts:1652-1653 | Math.floor((local - 2) / 14): the cell whose 14-pixel band holds the coordinate |
| Swap.PointerChoice | src/scenes/battle.ts:1650-1667 | pointer moves never release; a swap only with the pointer down, towards a side of the held sphere the clamped cell lies on, and only when the destination is on the grid |
| Swap.OnGrid | src/scenes/battle.ts:1547-1551 | the clamped position is on the grid and equals (x, y) when that is already on it |
| Swap.ArrowMoves | src/scenes/battle.ts:1601-1612 | the arrows keep the cursor on the grid |
| Swap.ArrowMovesOneStep | src/scenes/battle.ts:1601-1612 | each coordinate changes by at most one, and only with its own arrows |
| Swap.SingleArrow | src/scenes/battle.ts:1601-1612 | one held arrow moves the cursor one cell that way, or leaves it at the edge |
| Swap.MovePhase.constructor | src/scenes/battle.ts:1537-1545 | the cursor starts at the top-left cell |
| Swap.MovePhase.SetCursorPos | src/scenes/battle.ts:1547-1552 | the cursor moves to (x, y) clamped onto the grid |
| Swap.MovePhase.HandlePointerMove | src/scenes/battle.ts:1559-1563 | the cursor moves to the clamped cell under the pointer |
| Swap.MovePhase.HandlePointerDown | src/scenes/battle.ts:1565-1568 | the cursor moves under the pointer and that sphere is taken |
| Swap.MovePhase.Enter | src/scenes/battle.ts:1574-1590 | after a swap the cursor lands on the destination; space or the pointer still held takes that sphere at once |
| Swap.MovePhase.Execute | src/scenes/battle.ts:1592-1612 | a space press takes the sphere under the cursor, else shift starts the solve, else the arrows move the cursor |
| Combat.CharacterCases | src/scenes/battle.ts:54-58 | there are exactly three characters |
| Combat.Rank | src/scenes/battle.ts:54-58 | each character sits at its rank in the canonical order |
| Combat.OwnType | src/scenes/battle.ts:74-78 | a character's stock is never yellow or key |
| Combat.OwnTypeInjective | src/scenes/battle.ts:74-78 | no two characters draw on the same stock |
| Combat.InOrder | src/scenes/battle.ts:395-399 | exactly the kept characters, in canonical order |
| Combat.ActiveCharacters | src/scenes/battle.ts:395-399 | exactly the characters with hit points above zero, in canonical order |
| Combat.PartyAct | src/scenes/battle.ts:511-530 | one action never changes the party |
| Combat.PartyActEffect | src/scenes/battle.ts:511-530 | an attack on a standing enemy deals attack plus own and key stock, floored at zero, lowers the enemy's hit points to at least zero, reports the kill and spends the own stock; otherwise a defence with nothing changed |
| Combat.PartyActions | src/scenes/battle.ts:510-531 | the party's loop never changes the party |
| Combat.PartyActionsKeys | src/scenes/battle.ts:510-531 | after n passes exactly the first n characters have a result |
| Combat.PartyActionsStock | src/scenes/battle.ts:510-531 | the loop never touches the key or yellow stock, nor the stock of a character not yet reached, and only spends stock |
| Combat.PartyActionsClearKey | src/scenes/battle.ts:510-531 | clearKey is raised exactly when some attack resolved |
| Combat.PartyActionsNoAttack | src/scenes/battle.ts:510-531 | until an attack resolves the loop changes nothing |
| Combat.PartyActionsAttackChosen | src/scenes/battle.ts:513-529 | an attack result is only recorded for a character that chose to attack |
| Combat.PartyActionsEnemyHp | src/scenes/battle.ts:518 | the enemy's hit points never rise and never drop below zero |
| Combat.AttacksUseStartingStock | src/scenes/battle.ts:510-531 | with each character once, every attack is paid from the stocks as they were before the loop, so all attackers get the full key bonus; an attacker's own stock ends at zero and a defender's is untouched |
| Combat.EnemyAct | src/scenes/battle.ts:537-559 | the enemy acts exactly when it stands, never changes itself, and changes nothing when it is down |
| Combat.EnemyActEffect | src/scenes/battle.ts:538-558 | the chosen living character takes 30 + roll, less its own and yellow stock when it defended (both then spent), floored at zero; hit points floored at zero; death reports zero hit points; nothing else changes |
| Combat.EnemyActStock | src/scenes/battle.ts:544-549 | the enemy's move only spends stock, and never the key stock |
| Combat.TurnOrder | src/scenes/battle.ts:511 | the loop visits exactly the characters with an input, each once |
| Combat.PartyLoop | src/scenes/battle.ts:510-531 | the whole loop leaves the party unchanged |
| Combat.AfterParty | src/scenes/battle.ts:510-535 | the party's half of a turn leaves the party unchanged |
| Combat.Turn | src/scenes/battle.ts:506-566 | the returned stock counts are the state's stock after the turn |
| Combat.TurnAttackDamage | src/scenes/battle.ts:513-517 | every attack of a turn deals attack plus the starting own and key stock, floored at zero |
| Combat.TurnResultsCoverInputs | src/scenes/battle.ts:507-531 | every turn input gets a result and nothing else does |
| Combat.PartyLoopKeys | src/scenes/battle.ts:510-531 | the loop gives a result to each input |
| Combat.TurnKeyStock | src/scenes/battle.ts:533-535 | the key stock ends at zero when some attack resolved and is untouched otherwise |
| Combat.TurnEnemyAction | src/scenes/battle.ts:537-559 | the enemy acts exactly when it stands after the attacks; its target was alive; base damage lies in [30, 54]; a defender's starting own and yellow stock are subtracted and spent; the target loses the damage floored at zero |
| Combat.DefenderStock | src/scenes/battle.ts:544-548 | a defender's own and yellow stock reach the enemy's move untouched |
| Combat.DefenderResult | src/scenes/battle.ts:528-529 | a defending character's result is a defence |
| Combat.TurnEnemyHp | src/scenes/battle.ts:518 | the enemy's hit points never rise in a turn and stay non-negative |
| Combat.TurnPartyHp | src/scenes/battle.ts:552 | no character's hit points rise, none goes negative, and attack values stay fixed |
| Combat.TurnOnlySpendsStock | src/scenes/battle.ts:519-548 | each stock keeps its value or drops to zero in a turn |
| Combat.BattleState.constructor | src/scenes/battle.ts:478-488 | the given party and enemy, with every stock at zero |
| Combat.BattleState.SetStockCount | src/scenes/battle.ts:490-492 | only that type's stock changes, to the value |
| Combat.BattleState.ModStockCount | src/scenes/battle.ts:494-496 | only that type's stock changes, by the value |
| Combat.BattleState.IsGameOver | src/scenes/battle.ts:498-500 | game over exactly when no character is active |
| Combat.BattleState.IsVictory | src/scenes/battle.ts:502-504 | victory exactly when the enemy's hit points are below one |
| Combat.BattleState.ExecuteTurn | src/scenes/battle.ts:506-566 | the new state and the result are Turn of the old state, the inputs and the two draws |
| Combat.BattleState.PartyTurn | src/scenes/battle.ts:507-535 | the party's loop in place, as PartyLoop states it |
| Combat.BattleState.PartyMemberTurn | src/scenes/battle.ts:512-529 | one pass in place, as PartyAct states it |
| Combat.BattleState.EnemyTurn | src/scenes/battle.ts:537-559 | the enemy's move in place, as EnemyAct states it |
| StockDisplay.Shown | src/scenes/battle.ts:1262-1263 | Math.min(count, 40): never above 40, and the count itself when it is at most 40 |
| StockDisplay.StockCount.constructor | src/scenes/battle.ts:1240-1256 | a new counter shows zero |
| StockDisplay.StockCount.SetCount | src/scenes/battle.ts:1262-1266 | the count becomes the value capped at 40 |
| StockDisplay.StockCount.ModCount | src/scenes/battle.ts:1258-1260 | the count grows by the value, capped at 40 |
| StockDisplay.StockCount.ModTarget | src/scenes/battle.ts:1268-1270 | the animated target never passes 40 and is count + value below the cap |
| Flow.Next | src/scenes/battle.ts:1292-2079 | the phases keep their invariants; victory and game over are final; game over only when an action round starts with nobody active; victory only after a turn result with the enemy down; a swap only from a swap choice on the same cell |
| Flow.Selections | src/scenes/battle.ts:1455-1476 | count menu selections |
| Flow.Run | src/scenes/battle.ts:1292-2079 | a run of events keeps the phase invariants |
| Flow.SelectionsAdvance | src/scenes/battle.ts:1471-1475 | each selection moves to the next active character, and the last one starts the move phase |
| Flow.StartMoveStays | src/scenes/battle.ts:1510-1528 | the move phase's start ignores menu selections |
| Flow.ActionRound | src/scenes/battle.ts:1329-1346 | with nobody active the battle is lost; otherwise one selection per active character brings the move phase |
| Flow.SwapResumesAtDestination | src/scenes/battle.ts:1737 | after a swap the move phase resumes on a grid cell adjacent to the held one |
| Flow.ChosenInputsContents | src/scenes/battle.ts:1458-1487 | after n selections the inputs hold exactly the first n active characters, each with its chosen action |
| Flow.RoundOrder | src/scenes/battle.ts:1458-1487 | a full round's inputs are walked by executeTurn in the order of the active characters |
| Dialog.LettersEnd | src/dialog.ts:138 | the run of letters [A-Za-z] from j ends at the first non-letter |
| Dialog.TagShape | src/dialog.ts:138 | a tag starting at i begins with `<`, ends with `>`, and its letters run from after the optional `/` up to that `>` |
| Dialog.TagEnd | src/dialog.ts:138 | a match found is a whole tag `<`, optional `/`, letters, `>`; a tag starting at i is always found, and it has only one end |
| Dialog.NoTagInside | src/dialog.ts:138 | a stretch in which no tag starts contains no tag |
| Dialog.AlternatesCons | src/dialog.ts:138 | a tag-free text and a tag in front of alternating parts still alternate |
| Dialog.SplitFrom | src/dialog.ts:138 | the parts alternate text and tag, odd in number, every odd part a tag, and no text part contains a tag |
| Dialog.Split | src/dialog.ts:138 | script.split with the capturing tag group: text parts alternate with tags, every tag of the script is split out, and no text part has a tag left in it |
| Dialog.SplitConcat | src/dialog.ts:138 | joining the parts gives the script back |
| Dialog.SplitFromConcat | src/dialog.ts:138 | joining the parts from a position gives the rest of the script |
| Dialog.Concat | src/dialog.ts:213-218 | joining no parts gives the empty string and one part gives itself |
| Dialog.ConcatAppend | src/dialog.ts:213-218 | joining one more part appends it |
| Dialog.Lower | src/dialog.ts:145 | ASCII capitals map to their lower-case letters, other characters stay |
| Dialog.LowerCase | src/dialog.ts:145 | toLowerCase, character by character |
| Dialog.LowerCaseKeeps | src/dialog.ts:145 | text without capitals is its own lower case |
| Dialog.Classify | src/dialog.ts:145-190 | a recognised part is a tag in lower case; a literal part is none of the seven recognised tags |
| Dialog.CloseCurrent | src/dialog.ts:150-181 | a closing tag closes the open tint and keeps the text and the number of actions |
| Dialog.Carry | src/dialog.ts:182-186 | an open tint of the segment lives on in the action just emitted |
| Dialog.Step | src/dialog.ts:145-190 | one part fails exactly when it is a closing tag with no tint open, and otherwise keeps the tint reference valid |
| Dialog.Loaded | src/dialog.ts:144-192 | the loop's state stays valid |
| Dialog.FailureStays | src/dialog.ts:151-152 | once the loop throws, later parts do not matter |
| Dialog.LoadedNext | src/dialog.ts:144-192 | the loop's next state is Step of its current one |
| Dialog.LoadFailure | src/dialog.ts:144-198 | a throwing loop is a throwing loadScript |
| Dialog.LoadSuccess | src/dialog.ts:192-198 | a finished loop gives the final push's actions |
| Dialog.LoadScript | src/dialog.ts:137-199 | the loop computes Load of the script |
| Dialog.Feed | src/dialog.ts:145-190 | one pass of the loop computes Step |
| Dialog.CloseTint | src/dialog.ts:155-156 | the tint is closed at the current text length, wherever it lives |
| Dialog.LoadedFails | src/dialog.ts:150-180 | the loop throws exactly when some closing tag meets no open tint |
| Dialog.LoadFails | src/dialog.ts:150-180 | a script fails to load exactly when a closing tag meets no open tint |
| Dialog.AllTextRetint | src/dialog.ts:155 | changing a shown tint leaves the texts alone |
| Dialog.AllTextSnoc | src/dialog.ts:183-195 | the texts of one more action |
| Dialog.AllTextAppend | src/dialog.ts:183-195 | the texts of two lists of actions in a row |
| Dialog.LoadedText | src/dialog.ts:144-192 | the texts shown so far plus the segment's text are the parts that are not recognised tags |
| Dialog.CloseKeepsText | src/dialog.ts:155-156 | closing a tint leaves the texts shown alone |
| Dialog.DelayKeepsText | src/dialog.ts:182-186 | a delay adds its segment's text to the texts shown |
| Dialog.LoadedShape | src/dialog.ts:144-192 | every delay emits its segment's text and a 3000 ms pause, and nothing else emits |
| Dialog.StepShape | src/dialog.ts:145-190 | one part keeps the actions alternating |
| Dialog.LastShown | src/dialog.ts:100-102 | findLast: a text action with none after it, or -1 |
| Dialog.LoadShape | src/dialog.ts:137-199 | a loaded script starts with a text action and alternates texts and pauses, one pause per delay; it ends with a text action exactly when text follows the last delay or there is none; its texts are the script without recognised tags |
| Dialog.FinishShape | src/dialog.ts:194-196 | the final push ends the list with a text action exactly when the segment has text or no action exists |
| Dialog.SetText | src/dialog.ts:96-111 | setText succeeds exactly when the script loads, and shows its last text action, which every loadable script has |
| Dialog.LastShownLoaded | src/dialog.ts:99-105 | a loaded script's last text action is its last action or the one before its closing pause |
| Dialog.AnimateScript | src/dialog.ts:213-220 | a script given as one string is loaded as it is |
| Dialog.LoadedTints | src/dialog.ts:144-192 | tints start within their text and, once closed, end within it, provided no tint is closed after the delay that showed it |
| Dialog.StepTints | src/dialog.ts:145-190 | one part keeps tints within their texts unless it closes a tint already shown |
| Dialog.SkipPlain | src/dialog.ts:138 | characters other than `<` only extend the current text part |
| Dialog.TextThenTag | src/dialog.ts:138 | text without `<` followed by a tag gives those two as the next parts |
| Dialog.TextAtEnd | src/dialog.ts:138 | text without `<` at the end of the script is the last part |
| Dialog.QuirkRed | src/dialog.ts:138 | the example script splits into "xyz" and `<red>` first |
| Dialog.QuirkDelay | src/dialog.ts:138 | after `<red>` it splits into "ab" and `<delay>` |
| Dialog.QuirkClose | src/dialog.ts:138 | after `<delay>` it splits into "c", `</red>` and the empty text |
| Dialog.QuirkSplit | src/dialog.ts:138 | splitting `xyz<red>ab<delay>c</red>` gives exactly the seven parts the quirk lemmas load |
| Dialog.QuirkClassified | src/dialog.ts:145-190 | how the loader reads each part of the example script |
| Dialog.QuirkStarted | src/dialog.ts:146-148 | after `xyz<red>ab` the red tint is open at 3 in the segment "xyzab" |
| Dialog.QuirkOpened | src/dialog.ts:182-186 | at the delay the open red tint is shown with "xyzab" and stays current |
| Dialog.QuirkClosed | src/dialog.ts:150-157 | the closing tag after the delay closes the shown tint against the new segment |
| Dialog.QuirkEnded | src/dialog.ts:188-190 | the empty last part leaves the loader after the closing tag unchanged |
| Dialog.TintAcrossDelay | src/dialog.ts:136-199 | loading the script `xyz<red>ab<delay>c</red>` gives three actions: "xyzab" with a red tint of length 1 - 3 = -2, the pause, then "c" untinted |
| Dialog.LoadedLiterally | src/dialog.ts:188-190 | parts without recognised tags only build up the text |
| Dialog.PlainScript | src/dialog.ts:137-199 | a script without recognised tags loads as one untinted text action of itself |
| Menus.NeighbourKey | src/menu.ts:49 | a direction leads somewhere exactly when the item has a non-empty key for it |
| Menus.KeysOf | src/menu.ts:96-112 | the keys of the items, in order |
| Menus.Succ | src/menu.ts:99 | the next position, wrapping, stays among the items |
| Menus.Pred | src/menu.ts:98 | the previous position, wrapping, stays among the items |
| Menus.CyclicIsModular | src/menu.ts:98-99 | the wrap-around neighbours are (i + 1) mod n and (i - 1 + n) mod n |
| Menus.PredSucc | src/menu.ts:98-99 | previous and next undo each other |
| Menus.LinkedShape | src/menu.ts:97-100 | a linked item keeps its key, cancel flag and other links, and leads back and forward to its wrap-around neighbours |
| Menus.StoredLinks | src/menu.ts:97-102 | every stored item has both of its links |
| Menus.Cyclic | src/menu.ts:96-112 | every item of the table has both of its links |
| Menus.Horizontal | src/menu.ts:105-112 | every item has a left and a right link |
| Menus.Vertical | src/menu.ts:96-103 | every item has an up and a down link |
| Menus.StoredMember | src/menu.ts:100 | every stored key is the key of an item |
| Menus.StoredItem | src/menu.ts:97-102 | with unique keys each item is stored, linked, under its key |
| Menus.InsertIndex | src/menu.ts:33 | inserting an array-index key adds exactly that key to the sorted ones |
| Menus.InsertAscending | src/menu.ts:33 | inserting keeps the array-index keys in ascending numeric order |
| Menus.IndexKeys | src/menu.ts:33 | the array-index keys, in ascending numeric order |
| Menus.NamedKeys | src/menu.ts:33 | the other keys, none of them an array index |
| Menus.ObjectKeysPermutes | src/menu.ts:33 | `Object.keys` lists every created key once and nothing else |
| Menus.ObjectKeysOrder | src/menu.ts:33 | `Object.keys` lists the array-index keys first, ascending, before every other key |
| Menus.ObjectKeysPlain | src/menu.ts:33 | without array-index keys, `Object.keys` lists the keys in creation order |
| Menus.ObjectKeysExample | src/menu.ts:33 | a key "a" created before "1" is listed after it |
| Menus.OwnKeys | src/menu.ts:100 | the keys an assignment creates: none is `"__proto__"` |
| Menus.OwnKeysFrom | src/menu.ts:100 | dropping `"__proto__"` adds no key |
| Menus.OwnKeysPlain | src/menu.ts:100 | without `"__proto__"` every key is created |
| Menus.KeyOrderUnique | src/menu.ts:100 | with unique keys the accumulator creates every key but `"__proto__"`, in the list's order |
| Menus.CyclicKeys | src/menu.ts:96-112 | the table lists its keys as `Object.keys` does: array-index keys first by value, then the others in the list's order, `"__proto__"` not at all |
| Menus.CyclicPlainKeys | src/menu.ts:96-112 | without array-index keys or `"__proto__"` the table's keys are the list's keys in order, so the first key is the first item's |
| Menus.CyclicItems | src/menu.ts:96-112 | the table's items are those the reduce stores |
| Menus.CyclicPosition | src/menu.ts:97-102 | each key of the table is the key of an item, stored linked |
| Menus.CyclicNeighbours | src/menu.ts:97-102 | item i leads forward to item (i + 1) mod n and back to item (i - 1 + n) mod n |
| Menus.CyclicUndo | src/menu.ts:97-102 | in a cyclic table forward then back returns to the start, and back then forward too |
| Menus.HorizontalUndo | src/menu.ts:105-112 | in a horizontal menu left undoes right and right undoes left |
| Menus.VerticalUndo | src/menu.ts:96-103 | in a vertical menu up undoes down and down undoes up |
| Menus.CurrentItem | src/menu.ts:37-39 | an item exactly when the cursor is a non-empty key of the table, and that key's item |
| Menus.FirstKey | src/menu.ts:33 | the table's first key, exactly when it has one |
| Menus.MovedTo | src/menu.ts:41-45 | the cursor moves to the key and the focus event reports the new key, its item and the old key |
| Menus.WithItems | src/menu.ts:29-35 | the new table, the cursor on its first key when resetting, and one focus event then |
| Menus.InDirection | src/menu.ts:47-52 | the cursor follows the current item's link in that direction, and nothing happens without one |
| Menus.Selection | src/menu.ts:54-59 | a non-empty key other than the cursor's is moved to first; the last event reports the cursor and its item as selected |
| Menus.Updated | src/menu.ts:71-93 | at most one event per frame; the table and the pause flag never change |
| Menus.UpdateIdle | src/menu.ts:72-74 | nothing happens while paused or while `Object.values` lists no item |
| Menus.UpdatePriority | src/menu.ts:76-92 | space hides every arrow, and each arrow hides those after it in the order up, down, left, right |
| Menus.SpaceSelectsOrCancels | src/menu.ts:76-81 | space keeps the cursor and reports a cancel on a cancel item, otherwise a selection |
| Menus.RightThenLeft | src/menu.ts:105-112 | in a horizontal menu right then left, or left then right, returns to the item the cursor was on |
| Menus.Menu.constructor | src/menu.ts:18-27 | the given items with the cursor on their first key, or an empty menu, with input running |
| Menus.Menu.SetMenuItems | src/menu.ts:29-35 | the state and events WithItems gives |
| Menus.Menu.MoveCursorTo | src/menu.ts:41-45 | the state and event MovedTo gives |
| Menus.Menu.MoveCursorInDirection | src/menu.ts:47-52 | the state and events InDirection gives |
| Menus.Menu.Select | src/menu.ts:54-59 | the state and events Selection gives |
| Menus.Menu.PauseInput | src/menu.ts:61-64 | input becomes paused and nothing else changes |
| Menus.Menu.ResumeInput | src/menu.ts:66-69 | input resumes and nothing else changes |
| Menus.Menu.Update | src/menu.ts:71-93 | the state and events Updated gives |
| TileText.IndexOfFrom | src/text.ts:148 | indexOf from a position: the first position at or after it holding the character, or -1 when none does |
| TileText.Encode | src/text.ts:161-166 | a line break encodes as NEWLINE; any other character as its sheet position, or -1 when the sheet lacks it |
| TileText.Encoded | src/text.ts:161-166 | one index per character, each its encoding |
| TileText.AfterAfter | src/text.ts:160 | pushing two prefixes is pushing their concatenation |
| TileText.ParseFrom | src/text.ts:144-168 | a successful parse has at most one index per remaining character |
| TileText.ParseText | src/text.ts:142-169 | the loop computes the parse of the whole text, including its error |
| TileText.NextIndex | src/text.ts:145-166 | one pass pushes the index the parse starts with and moves strictly forward, or throws the parse's error |
| TileText.Advance | src/text.ts:159-160 | one pass keeps the rest of the parse after what was pushed |
| TileText.ParseLetter | src/text.ts:161-166 | a character other than `{` is encoded where it stands |
| TileText.SpecialTag | src/text.ts:146-160 | a tag resumes after its `}` with its special index, or throws the parse's error |
| TileText.ParseBrace | src/text.ts:146-160 | no `}` throws "Unmatched bracket", an unknown or zero name throws an invalid-tag error naming it, and a known name pushes its index and resumes after the `}` |
| TileText.ParseWithoutBraces | src/text.ts:142-169 | a text without `{` parses, with one index per character |
| TileText.FailureFrom | src/text.ts:142-169 | a failure at k is the failure of the parse when no `{` comes before k |
| TileText.BraceFails | src/text.ts:9 | with the game's empty table the first `{` makes the parse throw, "Unmatched bracket" with no `}` after it, otherwise an invalid-tag error |
| TileText.Blanked | src/text.ts:14-28 | each character replaced by what decoding its encoding leaves |
| TileText.GlyphOfEncode | src/text.ts:14-28 | decoding an encoded character gives it back, or a space when the sheet lacks it |
| TileText.DecodeEncoded | src/text.ts:14-28 | decoding an encoded text gives it back with characters the sheet lacks turned into spaces |
| TileText.ParseThenDecode | src/text.ts:14-28 | indexesToText after parseText gives a text without `{` back, with one index per character and missing characters as spaces |
| TileText.RoundTrip | src/text.ts:14-28 | a text over the sheet's characters, space and line break comes back unchanged |
| TileText.CursorInRow | src/text.ts:189-201 | from a cursor within the row the cursor stays within 0..width, every tile lands in a column of the layer, and the cursor never moves up |
| TileText.RowWrite | src/text.ts:193-199 | tiles that fit in the rest of the row go side by side from the cursor, which ends just after them |
| TileText.FullRow | src/text.ts:190-199 | a tile after a full row goes to the start of the next row, and a line break there moves down only once |
| TileText.Text.constructor | src/text.ts:46-83 | a blank charWidth x charHeight layer with the cursor at the origin |
| TileText.Text.SetCursor | src/text.ts:124-128 | the cursor moves to (x, y) |
| TileText.Text.PutTileAt | src/text.ts:198 | the tile is put at (x, y) when that cell is on the layer; every other cell is kept |
| TileText.Text.Clear | src/text.ts:135-140 | every tile empty and the cursor at the origin |
| TileText.Text.AppendIndexes | src/text.ts:182-204 | the cursor and the layer are those that writing the indexes one by one from the start position gives |
| TileText.Text.AppendText | src/text.ts:177-180 | a failed parse returns its error and changes nothing; otherwise the parsed indexes are appended |
| TileText.Text.SetText | src/text.ts:171-175 | the layer is cleared and the text written from (x, y); a failed parse leaves it cleared |
| TileText.Text.Scroll | src/text.ts:206-210 | rows move up by the given count and the bottom rows are emptied |

## Left out

- Rendering, animation, tweens, audio, music, depth, visibility, alpha, tint, position and size setters are not modelled. Neither are the waits between them or the end cards. The same goes for the health bars, damage numbers and sprite frames.
- The await structure of each phase's `handleEntered` is not modelled. `Flow.Next` treats the end of a phase's entry work as one `Finished` event.
- `animateScript`'s typing of characters and its abort controller are not modelled. They are timing and sound. `Dialog.AnimateScript` covers only the joining and loading of the script.
- `randomChoice` and `Math.random` are not modelled as random. The enemy's target is an index into the active characters, the roll a number in [0, 25), and the refill an oracle from (column, row) to a type.
- The shared utility module is not part of this model: `gridMove`, `DIRECTIONS`, `clamp` and `justDown`. `Util` gives them their evident meaning, and `justDown` presses arrive as booleans.
- `Combat.TurnOrder`: `Object.entries(turnInputs)` is taken in the canonical order Rojo, Blue, Midori. `Flow.RoundOrder` shows this is the order the action menus insert the inputs in.
- Numbers are unbounded integers. Non-integer values, NaN and floating-point rounding are not modelled, and string lengths count characters rather than UTF-16 code units.
- `Dialog.Lower`: `toLowerCase` is modelled for ASCII capitals only. Those are the only letters a tag can hold.
- `Combat.Turn`: the returned `stockCounts` aliases the battle's own counters in the source. The model returns a copy, equal to the state after the turn.
- `Menus.Cyclic`: the source's `reduce` also writes the links into the caller's item objects. The model builds new items.
- Menu focus and select listeners are not modelled. The model returns the events `emit` would send.
- `Dialog.LoadedTints`: holds only when no tint is closed after the `<delay>` that showed it. Otherwise the source gives the shown tint a length measured against the next segment's text. `Dialog.TintAcrossDelay` exhibits that.
- `Menus.CurrentItem`: a key that names no item finds nothing. JavaScript property lookup would also find names inherited from `Object.prototype`, such as `constructor`, and, once an item was stored under `"__proto__"`, that item and its own fields. The prototype chain is not modelled. A cursor on one of the table's keys is unaffected.
- `Menus.KeyOrder`: an item keyed `"__proto__"` becomes the accumulator's prototype rather than one of its keys. The model leaves it out of the keys, as `Object.keys` and `Object.values` do, and still finds it by lookup, as the prototype's getter does. It does not model the lookups that then fall through to that item.
- `Menus.CyclicNeighbours`: the undo and neighbour lemmas require unique keys. With repeated keys the source's table keeps the last item per key, as `Menus.Stored` models, but no neighbour property is claimed.
- `TileText.Text.constructor`: the initial text and tint options are not modelled. The text option is `SetText` after construction.
- `TileText.Text.Scroll`: requires 0 <= lines <= height. Phaser's clipping of copies and fills outside the layer is not modelled.
- `TileText.BraceFails`: the special glyph table is a parameter of `TileText.ParseText` and a name is special exactly when it is a key of that map. The game's table is empty, but JavaScript property lookup would also find inherited names such as `constructor`. That lookup is not modelled.
- `StockDisplay.StockCount.SetCount`: the bar mask and the text label use the uncapped value. Only the capped count is modelled.
- The battle's own stock counters have no cap, as in the source's `BattleState`.
- The `lowhp` query-string start and the loading and intro screens are not modelled, beyond the phase they lead to.
