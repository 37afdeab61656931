# Roll the dice — a Dafny model of the game component

The game in `src/App.tsx` shows ten dice. The player rolls, clicks dice to freeze them at their
current value, and is meant to win once every die shows one value. The component keeps six pieces of state:

- `roll`: the roll count;
- `dices`: the ten dice shown;
- `selected`: the frozen dice, in the order they were clicked;
- `isWon`: whether the game has been won;
- `time`: seconds elapsed;
- `timeTaken`: the time recorded at the win.

The score on the winning screen is `roll * 100`.

The model has four modules:

- `DiceRules` (`dice_rules.dfy`) holds the pure parts. These are the die record, the rebuild of
  the board that runs whenever `roll` changes, the `find` of the dice rebuild and the
  `filter`/`every` of the click handler, the win test and the score.
- `WinCheck` (`win_check.dfy`) relates the win test as the handler performs it to the rule the
  game announces ("all dice frozen with one value").
- `AppState` (`app_state.dfy`) holds the class `Game`. Its fields are the component's state, and
  each handler is a method that updates them in one step. Changing `roll` triggers the
  dice-generation effect, so `HandleRoll` and `HandleNewGame` include that effect's run.
- `Scenarios` (`scenarios.dfy`) plays whole games through the handlers. Each play's result is
  proved in its contract.

Object identity: the click handler tests `selected.includes(i)`, which compares die objects, and
every rebuild creates ten new objects. `Die` therefore carries a tag `born`, the number of the
rebuild that created it. Two `Die` values are equal exactly when they are the same object. The
invariant `Game.Valid` keeps every die on the board tagged with the latest rebuild and no
selected entry tagged later.

Randomness: `Math.random` becomes an argument `faces`, a draw of ten values in 1..6 (`IsDraw`),
given to every operation that rebuilds the board.

## Model

| member | source | states |
|---|---|---|
| DiceRules.Frozen | src/App.tsx:47 | a position is frozen exactly when some selected entry is for it |
| DiceRules.FirstFor | src/App.tsx:50 | the position found is the first entry for the board position; it is found exactly when the position is frozen |
| DiceRules.Rebuild | src/App.tsx:44-60 | a rebuild makes exactly ten dice; die k has index k and the new generation tag; a frozen position takes the value of its first selection entry; any other position takes the drawn face |
| DiceRules.RebuildKeepsFrozen | src/App.tsx:46-58 | when the selection agrees with the board, the rebuilt board shows faces 1..6 again; every frozen position keeps the value it showed; the selection still agrees with the new board |
| DiceRules.Unfreeze | src/App.tsx:25 | the result holds exactly the entries whose index differs from the clicked one; it is shorter when the position was frozen |
| DiceRules.UnfreezeAppend | src/App.tsx:25 | the filter works entry by entry, so kept entries stay in their original relative order |
| DiceRules.UnfreezeAbsent | src/App.tsx:25 | filtering out a position with no entry changes nothing |
| DiceRules.Toggle | src/App.tsx:22-26 | a die object not in the selection is appended at the end, earlier entries unchanged; clicking a selected object drops every entry for its position and nothing else |
| DiceRules.ToggleKeepsAgreement | src/App.tsx:21-26 | after a click on a die of the board, every selected entry still shows its value on the board |
| DiceRules.WinFires | src/App.tsx:28-29 | the handler's win test as written: the selection before the click has nine entries, all with the value of its first |
| DiceRules.AllFrozenAlike | src/App.tsx:92 | the announced rule: every board position is frozen and all selected entries share one value |
| DiceRules.Score | src/App.tsx:79 | the score is a multiple of 100 whose quotient is the roll count; at least 100 after a roll |
| WinCheck.Positions | src/App.tsx:47 | the set of frozen positions is exactly the positions some entry is for |
| WinCheck.PositionsCount | src/App.tsx:22-25 | a selection freezes at most as many positions as it has entries, exactly as many when no position repeats, and fewer when one does |
| WinCheck.CoversIffSize | src/App.tsx:22-23 | a selection of distinct positions below n freezes all n positions exactly when it has n entries |
| WinCheck.CoverNeedsTen | src/App.tsx:27-33 | a selection that freezes all ten positions has at least ten entries |
| WinCheck.FreezingClickMatchesRule | src/App.tsx:22-33 | on a click that freezes a new position (distinct positions), the handler's test plus a clicked die of the shared value holds exactly when all ten positions end frozen with one value |
| WinCheck.UnfreezingClickStillWins | src/App.tsx:24-33 | when the test fires on a click that unfreezes, the resulting selection does not cover the board |
| WinCheck.MismatchedClickStillWins | src/App.tsx:22-33 | when the test fires on a click of a die of another value, the resulting selection does not share one value |
| WinCheck.RefreezingClickStillWins | src/App.tsx:22-33 | when the test fires on a click of a new object for a position already frozen, the resulting selection does not cover the board |
| WinCheck.RepeatedPositionStillWins | src/App.tsx:22-33 | when the test fires on nine entries that hold one position twice, the selection after the click does not meet the announced rule, whatever die is clicked |
| WinCheck.FiringAgreesOnlyOnFreezingClick | src/App.tsx:22-33 | for every click on which the test fires: the selection after it meets the announced rule only if the click froze a new position with a die of the shared value and the selection before it held each position once |
| WinCheck.WinTestsRelation | src/App.tsx:22-33 | for every click on which the test fires (selection and die on the board): the announced rule holds after it if and only if the click freezes a new position with a die of the shared value and the selection before it held each position once |
| WinCheck.OverfullSelectionMissesWin | src/App.tsx:22-33 | when the selection after a click covers the board with one value in more than ten entries, the test on the selection before the click does not fire |
| WinCheck.AlikeSelectionMeansAlikeBoard | src/App.tsx:47-50 | a selection that agrees with the board and freezes all positions with one value means all ten dice show that value |
| AppState.Game.constructor | src/App.tsx:10-15 | initial state: roll 0, nothing selected, not won, both clocks 0; the mount run of the effect shows the draw on every die |
| AppState.Game.RollEffect | src/App.tsx:44-60 | the board is rebuilt from the selection: new objects, frozen positions keep their values, the others show the draw; the invariant is kept |
| AppState.Game.HandleRoll | src/App.tsx:17-19 | the roll count grows by exactly one; selection, won flag and clocks are unchanged; the board is rebuilt as the effect does |
| AppState.Game.HandleSelectDice | src/App.tsx:21-34 | the selection is toggled; the won flag becomes true and the time is recorded exactly when the selection BEFORE the click held nine entries of one value; otherwise both are unchanged |
| AppState.Game.HandleSelectDiceIntended | src/App.tsx:21-34 | corrected click: the game is won exactly when, after the toggle, all positions are frozen with one value; a win then means all ten dice show one value |
| AppState.Game.HandleNewGame | src/App.tsx:36-42 | roll, time, recorded time and selection reset, not won; the board is rebuilt from the draw only when the roll count was not already 0, and is left as it was otherwise |
| AppState.Game.Tick | src/App.tsx:62-67 | one timer firing adds exactly one second, won or not |
| Scenarios.ClickRange | src/App.tsx:21-34 | clicking dice lo..hi-1 appends them in order; the game is won exactly when one of those clicks saw nine entries of one value |
| Scenarios.WinOnAlikeBoard | src/App.tsx:17-34 | on a board of one value, one roll and n seconds later, freezing all ten wins with time n and score 100 |
| Scenarios.NineFrozenThenRoll | src/App.tsx:44-60 | nine frozen dice keep their value through a roll, and the game is not won |
| Scenarios.TicksOnly | src/App.tsx:62-67 | n ticks alone give time n and no win |
| Scenarios.NewGameAfterWin | src/App.tsx:36-60 | New Game after a win gives roll 0, not won, nothing frozen, time 0, and the fresh draw on the board |
| Scenarios.UnfreezeClickWins | src/App.tsx:24-33 | nine dice of one value frozen, then die 0 clicked again: won with eight dice frozen and the board not of one value |
| Scenarios.MismatchedTenthWins | src/App.tsx:22-33 | nine dice of value v frozen, then die 9 of value w: won although the ten frozen dice differ |
| Scenarios.RefreezeClickWins | src/App.tsx:22-33 | nine dice of one value frozen, a roll, then die 0 clicked again: won although die 9 is not frozen and shows the drawn face |
| Scenarios.RepeatedPositionWins | src/App.tsx:22-33 | dice 0 to 7 frozen at one value, a roll, die 0 clicked again, then die 8: won although die 9 is not frozen |
| Scenarios.RefrozenBoardMissesWin | src/App.tsx:22-33 | a die frozen, rolled and clicked again is selected twice; so played, all ten positions end frozen with one value in eleven entries and the game is not won |

## Left out

- Rendering (src/App.tsx:69-127): the JSX, the `classNames` styling and the frozen highlight. The highlight compares by index (line 103), not by object, and is not modelled.
- `src/Employee/index.tsx` and `src/LandingPage/index.tsx` are not part of this model. They hold HTTP fetches, formatting and static markup, and none of the game's rules.
- `setTimeout`/`clearTimeout` scheduling and cleanup are not modelled. Neither are React's re-renders, update batching and stale closures. Each handler is one atomic update, and each timer firing is one call of `Tick`.
- `Math.random`: its distribution is not modelled. The faces are given as a draw of ten values in 1..6.
- The state before the first effect run, with `dices` empty, is not modelled. The constructor includes the mount run of the dice-generation effect.
- `HandleSelectDice` requires the clicked die to be one of the dice shown. The component only passes dice taken from `dices`, so out-of-range positions cannot arise and no error path is modelled.
- The timer keeps running after a win. The model's `Tick` follows the code, and it does not stop while the game is won.
- The click compares die objects, not positions (src/App.tsx:22). New Game rebuilds the board only when the roll count changes (src/App.tsx:37, 60). The win test is the one described under Findings.
- The model allows `HandleRoll` and `HandleSelectDice` while the game is won. The component then renders only the New Game button (src/App.tsx:71-86), so it cannot roll or click a die. In the model, a click after a win can overwrite `timeTaken`, which the component cannot.

## Findings

| source | as written | input that shows it | evidently intended | confidence | as-written member | corrected member |
|---|---|---|---|---|---|---|
| src/App.tsx:27-33 | the win test reads the selection before the click, so a click that unfreezes one of nine alike frozen dice wins | dice 0..8 frozen at v, die 9 showing w != v, then die 0 clicked again | won only when, after the click, all ten are frozen with one value | not executed | Scenarios.UnfreezeClickWins | AppState.Game.HandleSelectDiceIntended |
| src/App.tsx:27-33 | the win test never looks at the clicked die, so freezing a tenth die of another value wins | dice 0..8 frozen at v, then die 9 showing w != v clicked | won only when the tenth frozen die shares the value | not executed | Scenarios.MismatchedTenthWins | AppState.Game.HandleSelectDiceIntended |
| src/App.tsx:22-33 | after a roll the board's dice are new objects, so clicking a frozen die again appends a second entry; the test still sees nine alike entries and declares a win with a position unfrozen | dice 0..8 frozen at v; roll; die 0 clicked again | won only when, after the click, all ten are frozen with one value | not executed | Scenarios.RefreezeClickWins | AppState.Game.HandleSelectDiceIntended |
| src/App.tsx:22-33 | after a roll a re-clicked frozen die is a second entry for its position, so nine alike entries can freeze only eight positions; the test fires on the next click, which cannot cover the board | dice 0..7 frozen at v; roll; die 0 clicked again; die 8 clicked | won only when, after the click, all ten are frozen with one value | not executed | Scenarios.RepeatedPositionWins | AppState.Game.HandleSelectDiceIntended |
| src/App.tsx:22-33 | the win test wants exactly nine entries, but after a roll a re-clicked frozen die is selected twice, so a board of one value can be fully frozen without a win | die 9 (w) then dice 0..8 (v) frozen; roll; dice 0 and 9 clicked; die 9 clicked again; roll of all v; die 9 clicked | won when every position is frozen with one value, whatever the entry count | not executed | Scenarios.RefrozenBoardMissesWin | AppState.Game.HandleSelectDiceIntended |

`Game.HandleSelectDice` keeps the test as written. `Game.HandleSelectDiceIntended` is the
corrected click. `WinCheck.FreezingClickMatchesRule` proves that, when no position is selected twice,
the handler's test together with a clicked die of the shared value is equivalent to the rule
after a click that freezes a new position. `WinCheck.UnfreezingClickStillWins`,
`WinCheck.RefreezingClickStillWins`, `WinCheck.MismatchedClickStillWins` and
`WinCheck.RepeatedPositionStillWins` prove, for every input, that the test fires with the rule
unmet on every other click. `WinCheck.FiringAgreesOnlyOnFreezingClick` combines them, and
`WinCheck.WinTestsRelation` states the exact relation: when the test fires, the rule holds after
the click if and only if the click freezes a new position with a die of the shared value and the
selection before it held each position once. For the missed win of the last row,
`WinCheck.OverfullSelectionMissesWin` states the general case: a selection that meets the rule
after the click with more than ten entries never fires the test.
