// The validation and geometry of ship placement and attack in game.ts:
// validateShipCoordinate, isValidShipPosition, isValidAttackCoordinates,
// and the bounds test and covered cells of drawShipToBoard.
module Rules {
  import opened Utils
  import opened Board

  /** The diagnostics the source reports with console.error. */
  datatype Fault =
    | ShipXInvalid | ShipYInvalid | ShipSizeInvalid
    | OffBoardHorizontally | OffBoardVertically | ExistingShip
    | AttackXInvalid | AttackYInvalid

  /** The result of a validation: pass, or the first diagnostic that fired. */
  datatype Outcome = Pass | Fail(fault: Fault)

  /**
   * The model takes coordinates to be non-negative: the validator has no
   * lower bound, and what a JavaScript array does with a negative index is
   * not modelled.
   */
  predicate NotNegative(v: Option<int>)
  {
    v.Some? ==> v.value >= 0
  }

  /**
   * validateShipCoordinate: `value < boardSize && isValidNumericInput(value)`.
   * There is no lower bound, and it is reused for the ship length.
   */
  function ValidateShipCoordinate(boardSize: int, value: Option<int>): (ok: bool)
    ensures ok <==> value.Some? && value.value < boardSize
  {
    JsLess(value, boardSize) && IsValidNumericInput(Number(value))
  }

  /** isValidShipPosition: x, then y, then the length, each with its own diagnostic. */
  function IsValidShipPosition(boardSize: int, x: Option<int>, y: Option<int>, shipSize: Option<int>): (r: Outcome)
    ensures r == Pass <==>
      x.Some? && x.value < boardSize && y.Some? && y.value < boardSize && shipSize.Some? && shipSize.value < boardSize
    ensures r == Fail(ShipXInvalid) <==> !(x.Some? && x.value < boardSize)
    ensures r == Fail(ShipYInvalid) <==> x.Some? && x.value < boardSize && !(y.Some? && y.value < boardSize)
    ensures r == Fail(ShipSizeInvalid) <==>
      x.Some? && x.value < boardSize && y.Some? && y.value < boardSize && !(shipSize.Some? && shipSize.value < boardSize)
  {
    if !ValidateShipCoordinate(boardSize, x) then Fail(ShipXInvalid)
    else if !ValidateShipCoordinate(boardSize, y) then Fail(ShipYInvalid)
    else if !ValidateShipCoordinate(boardSize, shipSize) then Fail(ShipSizeInvalid)
    else Pass
  }

  /** isValidAttackCoordinates: x, then y. */
  function IsValidAttackCoordinates(boardSize: int, x: Option<int>, y: Option<int>): (r: Outcome)
    ensures r == Pass <==> x.Some? && x.value < boardSize && y.Some? && y.value < boardSize
    ensures r == Fail(AttackXInvalid) <==> !(x.Some? && x.value < boardSize)
    ensures r == Fail(AttackYInvalid) <==> x.Some? && x.value < boardSize && !(y.Some? && y.value < boardSize)
  {
    if !ValidateShipCoordinate(boardSize, x) then Fail(AttackXInvalid)
    else if !ValidateShipCoordinate(boardSize, y) then Fail(AttackYInvalid)
    else Pass
  }

  /**
   * The checks drawShipToBoard makes before it looks at the board: the
   * position, then the extent in the chosen direction. Any direction other
   * than "right" and "down" has no extent check.
   */
  function PlacementCheck(boardSize: int, x: Option<int>, y: Option<int>, shipSize: Option<int>, direction: string): (r: Outcome)
    ensures r == Pass <==>
      && IsValidShipPosition(boardSize, x, y, shipSize) == Pass
      && (direction == "right" ==> x.value + shipSize.value <= boardSize)
      && (direction == "down" ==> y.value + shipSize.value <= boardSize)
    ensures r.Fail? && IsValidShipPosition(boardSize, x, y, shipSize) == Pass ==>
      r.fault == if direction == "right" then OffBoardHorizontally else OffBoardVertically
    ensures IsValidShipPosition(boardSize, x, y, shipSize).Fail? ==> r == IsValidShipPosition(boardSize, x, y, shipSize)
  {
    match IsValidShipPosition(boardSize, x, y, shipSize)
    case Fail(f) => Fail(f)
    case Pass =>
      if direction == "right" && x.value + shipSize.value > boardSize then Fail(OffBoardHorizontally)
      else if direction == "down" && y.value + shipSize.value > boardSize then Fail(OffBoardVertically)
      else Pass
  }

  /**
   * The cells a ship of the given length covers from (x, y), in the order
   * the write loops of drawShipToBoard visit them. An unrecognised
   * direction runs neither loop, and a length of zero or less runs no
   * iteration.
   */
  function Covered(x: nat, y: nat, shipSize: int, direction: string): (cells: seq<Coord>)
    ensures |cells| == if (direction == "right" || direction == "down") && shipSize > 0 then shipSize else 0
    ensures forall a, b :: 0 <= a < b < |cells| ==> cells[a].x + cells[a].y < cells[b].x + cells[b].y
  {
    var n := if shipSize > 0 then shipSize else 0;
    if direction == "right" then seq(n, k requires 0 <= k < n => Coord(x + k, y))
    else if direction == "down" then seq(n, k requires 0 <= k < n => Coord(x, y + k))
    else []
  }

  /** The covered cells are exactly the straight run of shipSize cells from (x, y). */
  lemma CoveredExactly(x: nat, y: nat, shipSize: int, direction: string, c: Coord)
    ensures c in Covered(x, y, shipSize, direction) <==>
      || (direction == "right" && c.y == y && x <= c.x < x + shipSize)
      || (direction == "down" && c.x == x && y <= c.y < y + shipSize)
  {
    var cells := Covered(x, y, shipSize, direction);
    if direction == "right" && c.y == y && x <= c.x < x + shipSize {
      assert cells[c.x - x] == c;
    } else if direction == "down" && c.x == x && y <= c.y < y + shipSize {
      assert cells[c.y - y] == c;
    }
  }

  /** A placement that passes its checks stays on the board. */
  lemma PlacementStaysOnBoard(boardSize: int, x: Option<int>, y: Option<int>, shipSize: Option<int>, direction: string)
    requires NotNegative(x) && NotNegative(y)
    requires PlacementCheck(boardSize, x, y, shipSize, direction) == Pass
    ensures forall c :: c in Covered(x.value, y.value, shipSize.value, direction) ==> c.x < boardSize && c.y < boardSize
  {
  }
}
