# Battleships: a verified model of the game core

This project models the core of a single-player, terminal Battleship game
(game.ts and utils.ts) in Dafny. The player picks a board size. They place
ships of a chosen length, going "right" or "down" from an anchor cell, and
then attack cells until every ship segment has been hit.

- **Board** (`board.dfy`): the square grid of cells, indexed `[y, x]` as the
  source indexes `board[y][x]`. A cell is `Empty(x, y)`, `ShipPart` or `Hit`.
  These are the strings `"x-y"`, `"-"` and `"X"` of the source, and
  `Display` maps each cell to its string. `DrawGrid` fills a fresh board
  with the empty markers.
- **Rules** (`rules.dfy`): the validators. A coordinate or length is valid
  when it is a number (not NaN) strictly below the board size; there is no
  lower bound. This module also holds the extent check of a placement and
  `Covered`, the run of cells a ship covers.
- **Fleet** (`fleet.dfy`): the ship list. Each ship is the list of its
  live segments in placement order. `Without` removes a hit segment, and
  `CheckShips` is the win test.
- **Game** (`session.dfy`): the class `Session`. It holds the state the
  source keeps at module level: `boardSize`, `playerGrid`, `playerShips`
  and `isGameRunning`. Its methods are drawShipToBoard, getPosition,
  attack, updateShipList, and one iteration of each prompt loop
  (`DrawShipsStep` for drawShips, `AttackStep` for startGame).
- **Utils** (`utils.dfy`): the NaN guard and `addSpace`.
- **Scenarios** (`scenarios.dfy`): whole games driven through the step
  methods, checked against their contracts.

A parsed number is an `Option<int>`, where `None` stands for NaN. The
prompted values are parameters of the step methods.

The central invariant is `Session.Consistent()`:
- the cells showing `ShipPart` are exactly the live segments of the ships;
- no two ships share a segment;
- no ship lists a segment twice;
- every empty cell holds its own coordinates.

The constructor establishes it. Placing a ship and pushing it
(`DrawShipsStep`) preserves it, and so does an attack followed by the
segment update (`AttackStep`).

Segments are stored as coordinates rather than as the source's `"x-y"`
strings. `Board.KeyInjective` proves that the `"x-y"` encoding is
injective on natural numbers. `Fleet.KeysOfWithout` proves that filtering
by coordinate gives the same result as the source's string filter.

Behaviour of the code that is easy to misread:
- A direction other than "right" or "down" is not treated as "right". It
  runs neither branch of drawShipToBoard, which returns an empty ship, and
  drawShips counts that ship as placed.
- A length of zero or less passes validation and gives an empty ship.
- A length equal to the board size is rejected, even though the extent
  check alone would let it fit.
- The collision scan compares cells only with `"-"`, so a ship may be
  placed over a cell that shows a hit.

## Model

| member | source | states |
|---|---|---|
| Utils.IsValidNumericInput | utils.ts:15-16 | true exactly for a number that is not NaN; false for every string |
| Utils.JsLess | game.ts:185 | JavaScript `<` on a parsed number: false when the number is NaN, otherwise the integer comparison |
| Utils.AddSpace | utils.ts:3-9 | the loop returns the character string repeated `amount` times, `""` when amount <= 0, of length amount times the string's length |
| Utils.RepeatAppend | utils.ts:6 | each loop iteration appends one copy: repeating n+1 times is repeating n times followed by one more copy (n >= 0) |
| Utils.RepeatLength | utils.ts:3-9 | the padding has length n times the string's length for n > 0, and is empty otherwise |
| Utils.RepeatChar | utils.ts:3-9 | padding with one character gives exactly max(n, 0) copies of that character and nothing else |
| Board.Decimal | game.ts:175 | a numeral is a non-empty string of digits, one digit long exactly for numbers below 10 |
| Board.DecimalInjective | game.ts:175 | distinct natural numbers have distinct numerals |
| Board.KeyInjective | game.ts:80 | the key `"x-y"` determines the coordinate: equal keys iff equal coordinates |
| Board.Key | game.ts:80 | the key `${x}-${y}` is the x numeral, one '-', then the y numeral; that '-' is its only one, and the key is at least three characters long, so it is never the ship or hit marker |
| Board.Display | game.ts:12-13 | a cell's string is `"-"` iff it holds a ship and `"X"` iff it was hit, so an empty marker never equals either |
| Board.DisplayInjective | game.ts:325 | distinct cells show distinct strings, so the source's string comparisons decide the cell kind |
| Board.DrawGrid | game.ts:170-180 | a fresh board of max(n, 0) rows of max(n, 0) cells; the cell at row i, column j is the empty marker of (x = j, y = i) |
| Rules.ValidateShipCoordinate | game.ts:184-186 | valid iff the value is a number (not NaN) strictly below the board size; no lower bound |
| Rules.IsValidShipPosition | game.ts:192-207 | passes iff x, y and the length are all valid; otherwise the first invalid one of x, y, length is reported |
| Rules.IsValidAttackCoordinates | game.ts:303-315 | passes iff x and y are valid; otherwise the first invalid one is reported |
| Rules.PlacementCheck | game.ts:225-262 | passes iff the position is valid and the ship fits in its direction (x + length <= size going right, y + length <= size going down); reports the first failure |
| Rules.Covered | game.ts:250-283 | the run has `length` cells for "right"/"down" with positive length, none otherwise, strictly increasing along the axis (hence distinct) |
| Rules.CoveredExactly | game.ts:250-283 | a cell is covered iff it lies on the straight run of `length` cells from (x, y) in the given direction |
| Rules.PlacementStaysOnBoard | game.ts:230-262 | every cell of a placement that passes the checks lies on the board |
| Fleet.Keys | types.ts:3 | the source's form of a ship: empty exactly for an empty ship, and holding the `"x-y"` key of every segment |
| Fleet.KeysAt | types.ts:3 | one key per segment: the key list is as long as the ship, and its i-th entry is the key of the i-th segment |
| Fleet.DropKey | game.ts:84-86 | the source's filter on one ship's keys keeps exactly the keys other than the hit one, is no longer, and leaves a ship without that key unchanged |
| Fleet.Without | game.ts:84-86 | the filtered ship holds exactly the segments other than the hit one, is no longer, and keeps distinct segments distinct |
| Fleet.WithoutConcat | game.ts:84-86 | filtering works piecewise over concatenation, so the remaining segments keep their relative order |
| Fleet.WithoutAbsent | game.ts:83-87 | a ship that does not contain the hit segment is left exactly as it was |
| Fleet.WithoutOwner | game.ts:83-87 | a ship holding the hit segment once shrinks by exactly one segment |
| Fleet.KeysOfWithout | game.ts:80-86 | the coordinate filter equals the source's filter on the `"x-y"` key strings |
| Fleet.RemoveSegment | game.ts:79-88 | the same number of ships, each with the hit segment removed and nothing else removed; disjointness and distinct segments are kept |
| Fleet.RemoveShrinksOwner | game.ts:79-88 | with disjoint ships, the owner of the hit segment loses exactly that one segment and every other ship is unchanged |
| Fleet.CheckShips | game.ts:114-125 | true iff every ship has no segment left (vacuously true for no ships) |
| Game.PromptedDirection | game.ts:141-147 | the direction is the prompted answer when the length is a number greater than 1, and "right" otherwise (including NaN) |
| Game.Session.constructor | game.ts:16-24 | a fresh drawGrid board, no ships, the game running, and the invariant established |
| Game.Session.GetPosition | game.ts:293-295 | the cell at column x, row y; an empty cell there is the marker of (x, y), so x and y are not transposed |
| Game.Session.DrawShipToBoard | game.ts:216-286 | a failed check gives its diagnostic; a collision with any covered cell gives ExistingShip; in both cases the board is unchanged; otherwise the ship marker is written into exactly the covered cells, which are returned in order |
| Game.Session.ScanRight | game.ts:241-248 | the rightward scan finds no ship iff no covered cell shows a ship |
| Game.Session.ScanDown | game.ts:269-276 | the downward scan finds no ship iff no covered cell shows a ship |
| Game.Session.MarkRight | game.ts:251-254 | writes the ship marker into exactly the rightward run and returns its cells in order |
| Game.Session.MarkDown | game.ts:279-282 | writes the ship marker into exactly the downward run and returns its cells in order |
| Game.Session.Attack | game.ts:317-335 | hit iff the coordinates are valid and the cell shows a ship; a hit turns that one cell into a hit; otherwise nothing changes |
| Game.Session.UpdateShipList | game.ts:79-88 | the ship list becomes RemoveSegment of the old list at (x, y) |
| Game.Session.DrawShipsStep | game.ts:133-168 | slot i is entered with i ships pushed; success pushes the new ship and moves to the next slot, so the slot always equals the number of ships; failure keeps the slot and changes nothing; an empty ship counts as placed; the invariant is kept |
| Game.Session.AttackStep | game.ts:52-72 | a miss or invalid attack changes nothing; a hit marks the cell, removes the segment from every ship, and the game keeps running iff some ship still has a segment; the invariant is kept |
| Game.Session.RecordHit | game.ts:64-71 | after a hit, the segment is removed, the invariant is restored, and the game stops iff no segment is left |
| Game.AllSunkIffNoShipCell | game.ts:114-125 | on a consistent session every ship is sunk iff no cell of the board still shows a ship |
| Scenarios.AttackTwice | game.ts:317-335 | attacking the same cell a second time is always a miss |
| Scenarios.OneShipGame | game.ts:52-72 | on a board of size 3, a length-2 ship at (0, 0) going right covers (0, 0) and (1, 0); the first hit leaves the ship list [[(1, 0)]] and the game running; the second hit leaves [[]] and ends it |
| Scenarios.OffBoardAttack | game.ts:303-320 | an attack at (5, 1) on a board of size 3 misses, records no ship, keeps the game running and leaves every cell its empty marker |

## Left out

- Terminal input: userPrompt, userPromptString and prompt-sync (utils.ts:1, 18-22) are not modelled. Their answers are parameters of the step methods, with parseInt's NaN as None. The direction answer is taken after prompt-sync has applied its default "right".
- parseInt returning Infinity for very long digit strings is not modelled: every parsed number is an integer or NaN.
- getRandomNumber (utils.ts:11-13) uses Math.random and floating point, and nothing calls it.
- Display: printGrid, printHeaderRow and every console.log and console.error call are left out. Diagnostics are returned as a `Fault` value instead. Attack returns only its boolean, as the source does; the attack diagnostic is the `Fault` in the result of IsValidAttackCoordinates.
- Process startup: the top-level prompts, sanitizeInput and initializeGame (game.ts:16-46) are left out. The Session constructor takes an already parsed board size. The NaN abort corresponds to never constructing a session. numberOfShips is a parameter of DrawShipsStep.
- The two unbounded loops (game.ts:52-72 and game.ts:134-167) end only through user input, so only one iteration of each is modelled.
- Negative coordinates: the validator has no lower bound, but JavaScript's behaviour on a negative array index (an undefined read, or a TypeError for a negative row) is not modelled. DrawShipToBoard, Attack and the step methods require x and y to be non-negative when they are numbers. Negative lengths are modelled.
- types.ts holds type declarations only. Its Board, Ship and ShipDirection shapes are the array2 of cells, the sequence of segments and the open `string` direction.
