// The game session of game.ts: the board, the ship list and the running
// flag that the source keeps at module level, with drawShipToBoard,
// getPosition, attack, updateShipList and one step of each of the two
// prompt loops (drawShips and startGame).
module Game {
  import opened Utils
  import opened Board
  import opened Rules
  import opened Fleet

  /** What drawShipToBoard gives back: the new ship, or nothing (with the diagnostic it printed). */
  datatype Placement = Placed(ship: Ship) | Rejected(fault: Fault)

  /**
   * The direction drawShips passes on: the prompted answer when the length
   * is greater than 1, otherwise "right" (NaN > 1 is false).
   */
  function PromptedDirection(shipSize: Option<int>, answer: string): (r: string)
    ensures shipSize.Some? && shipSize.value > 1 ==> r == answer
    ensures !(shipSize.Some? && shipSize.value > 1) ==> r == "right"
  {
    if shipSize.Some? && shipSize.value > 1 then answer else "right"
  }

  class Session {
    const boardSize: int
    /** The board, indexed `[y, x]` as the source indexes `board[y][x]`. */
    const playerGrid: array2<Cell>
    var playerShips: seq<Ship>
    var isGameRunning: bool

    /** The board is boardSize by boardSize, and every empty cell holds its own coordinates. */
    ghost predicate Valid()
      reads this, playerGrid
    {
      && playerGrid.Length0 == playerGrid.Length1 == (if boardSize > 0 then boardSize else 0)
      && forall i, j :: 0 <= i < playerGrid.Length0 && 0 <= j < playerGrid.Length1 && playerGrid[i, j].Empty? ==>
           playerGrid[i, j] == Empty(j, i)
    }

    /** Every live segment, except those in `pending`, is a board cell showing a ship. */
    ghost predicate SegmentsShown(pending: set<Coord>)
      reads this, playerGrid
      requires Valid()
    {
      forall k, c :: 0 <= k < |playerShips| && c in playerShips[k] && c !in pending ==>
        c.x < boardSize && c.y < boardSize && playerGrid[c.y, c.x] == ShipPart
    }

    /** Every cell showing a ship is a live segment of some ship. */
    ghost predicate ShownAreSegments()
      reads this, playerGrid
    {
      forall i, j :: 0 <= i < playerGrid.Length0 && 0 <= j < playerGrid.Length1 && playerGrid[i, j] == ShipPart ==>
        exists k :: 0 <= k < |playerShips| && Coord(j, i) in playerShips[k]
    }

    /** No two ships share a segment, and no ship lists a segment twice. */
    ghost predicate ShipsWellFormed()
      reads this
    {
      Disjoint(playerShips) && forall k :: 0 <= k < |playerShips| ==> NoDuplicates(playerShips[k])
    }

    /** The cells marked with a ship are exactly the live segments of well-formed ships. */
    ghost predicate Consistent()
      reads this, playerGrid
    {
      Valid() && SegmentsShown({}) && ShownAreSegments() && ShipsWellFormed()
    }

    /**
     * The state between attack and updateShipList after a hit on c: the
     * cell shows the hit, but c is still listed in its ship.
     */
    ghost predicate HitPending(c: Coord)
      reads this, playerGrid
    {
      && Valid() && c.x < boardSize && c.y < boardSize && playerGrid[c.y, c.x] == Hit
      && SegmentsShown({c}) && ShownAreSegments() && ShipsWellFormed()
    }

    /** Some of the given cells is on the board and already holds a ship. */
    ghost predicate Collides(cells: seq<Coord>)
      reads this, playerGrid
      requires Valid()
    {
      exists c :: c in cells && c.x < boardSize && c.y < boardSize && playerGrid[c.y, c.x] == ShipPart
    }

    /** Session start: a fresh board from drawGrid, no ships, the game running. */
    constructor (boardSize: int)
      ensures this.boardSize == boardSize
      ensures Consistent() && fresh(playerGrid)
      ensures playerShips == [] && isGameRunning
      ensures forall i, j :: 0 <= i < playerGrid.Length0 && 0 <= j < playerGrid.Length1 ==> playerGrid[i, j] == Empty(j, i)
    {
      var grid := DrawGrid(boardSize);
      this.boardSize := boardSize;
      playerGrid := grid;
      playerShips := [];
      isGameRunning := true;
    }

    /** getPosition: the cell at column x of row y; an empty cell there is the marker of (x, y). */
    function GetPosition(x: nat, y: nat): (cell: Cell)
      reads this, playerGrid
      requires Valid() && x < boardSize && y < boardSize
      ensures cell.Empty? ==> cell == Empty(x, y)
    {
      playerGrid[y, x]
    }

    /**
     * drawShipToBoard: validate, check the extent, scan every covered cell
     * for a ship, and only then write the ship marker into the covered
     * cells and return their coordinates in order.
     */
    method DrawShipToBoard(x: Option<int>, y: Option<int>, shipSize: Option<int>, direction: string) returns (r: Placement)
      requires Valid() && NotNegative(x) && NotNegative(y)
      modifies playerGrid
      ensures Valid()
      ensures PlacementCheck(boardSize, x, y, shipSize, direction).Fail? ==>
        r == Rejected(PlacementCheck(boardSize, x, y, shipSize, direction).fault)
      ensures PlacementCheck(boardSize, x, y, shipSize, direction) == Pass ==>
        var cells := Covered(x.value, y.value, shipSize.value, direction);
        r == if old(Collides(cells)) then Rejected(ExistingShip) else Placed(cells)
      ensures r.Rejected? ==> unchanged(playerGrid)
      ensures r.Placed? ==> forall i, j :: 0 <= i < playerGrid.Length0 && 0 <= j < playerGrid.Length1 ==>
        playerGrid[i, j] == if Coord(j, i) in r.ship then ShipPart else old(playerGrid[i, j])
    {
      var check := IsValidShipPosition(boardSize, x, y, shipSize);
      if check.Fail? {
        return Rejected(check.fault);
      }
      var col, row, size := x.value, y.value, shipSize.value;
      var newShip: Ship := [];
      if direction == "right" {
        if col + size > boardSize {
          return Rejected(OffBoardHorizontally);
        }
        var free := ScanRight(col, row, size);
        if !free {
          return Rejected(ExistingShip);
        }
        newShip := MarkRight(col, row, size);
      } else if direction == "down" {
        if row + size > boardSize {
          return Rejected(OffBoardVertically);
        }
        var free := ScanDown(col, row, size);
        if !free {
          return Rejected(ExistingShip);
        }
        newShip := MarkDown(col, row, size);
      } else {
        assert !Collides(Covered(col, row, size, direction));
      }
      return Placed(newShip);
    }

    /** The collision scan of a rightward ship, run to the end before any write. */
    method ScanRight(col: nat, row: nat, size: int) returns (free: bool)
      requires Valid() && row < boardSize && col + size <= boardSize
      ensures free <==> !Collides(Covered(col, row, size, "right"))
    {
      var i := col;
      while i < col + size
        invariant col <= i && (i <= col + size || i == col)
        invariant forall k :: col <= k < i ==> playerGrid[row, k] != ShipPart
      {
        if playerGrid[row, i] == ShipPart {
          CoveredExactly(col, row, size, "right", Coord(i, row));
          return false;
        }
        i := i + 1;
      }
      forall c | c in Covered(col, row, size, "right") ensures playerGrid[c.y, c.x] != ShipPart {
        CoveredExactly(col, row, size, "right", c);
      }
      return true;
    }

    /** The collision scan of a downward ship, run to the end before any write. */
    method ScanDown(col: nat, row: nat, size: int) returns (free: bool)
      requires Valid() && col < boardSize && row + size <= boardSize
      ensures free <==> !Collides(Covered(col, row, size, "down"))
    {
      var i := row;
      while i < row + size
        invariant row <= i && (i <= row + size || i == row)
        invariant forall k :: row <= k < i ==> playerGrid[k, col] != ShipPart
      {
        if playerGrid[i, col] == ShipPart {
          CoveredExactly(col, row, size, "down", Coord(col, i));
          return false;
        }
        i := i + 1;
      }
      forall c | c in Covered(col, row, size, "down") ensures playerGrid[c.y, c.x] != ShipPart {
        CoveredExactly(col, row, size, "down", c);
      }
      return true;
    }

    /** The writes of a rightward ship: the ship marker in each covered cell, the keys pushed in order. */
    method MarkRight(col: nat, row: nat, size: int) returns (newShip: Ship)
      requires Valid() && row < boardSize && col + size <= boardSize
      modifies playerGrid
      ensures Valid()
      ensures newShip == Covered(col, row, size, "right")
      ensures forall i, j :: 0 <= i < playerGrid.Length0 && 0 <= j < playerGrid.Length1 ==>
        playerGrid[i, j] == if Coord(j, i) in newShip then ShipPart else old(playerGrid[i, j])
    {
      ghost var cells := Covered(col, row, size, "right");
      newShip := [];
      var i := col;
      while i < col + size
        invariant col <= i && (i <= col + size || i == col)
        invariant newShip == cells[..i - col]
        invariant forall r, c :: 0 <= r < playerGrid.Length0 && 0 <= c < playerGrid.Length1 ==>
          playerGrid[r, c] == if r == row && col <= c < i then ShipPart else old(playerGrid[r, c])
      {
        playerGrid[row, i] := ShipPart;
        newShip := newShip + [Coord(i, row)];
        i := i + 1;
      }
      assert newShip == cells;
      forall i, j | 0 <= i < playerGrid.Length0 && 0 <= j < playerGrid.Length1
        ensures playerGrid[i, j] == if Coord(j, i) in newShip then ShipPart else old(playerGrid[i, j])
      {
        CoveredExactly(col, row, size, "right", Coord(j, i));
      }
    }

    /** The writes of a downward ship: the ship marker in each covered cell, the keys pushed in order. */
    method MarkDown(col: nat, row: nat, size: int) returns (newShip: Ship)
      requires Valid() && col < boardSize && row + size <= boardSize
      modifies playerGrid
      ensures Valid()
      ensures newShip == Covered(col, row, size, "down")
      ensures forall i, j :: 0 <= i < playerGrid.Length0 && 0 <= j < playerGrid.Length1 ==>
        playerGrid[i, j] == if Coord(j, i) in newShip then ShipPart else old(playerGrid[i, j])
    {
      ghost var cells := Covered(col, row, size, "down");
      newShip := [];
      var i := row;
      while i < row + size
        invariant row <= i && (i <= row + size || i == row)
        invariant newShip == cells[..i - row]
        invariant forall r, c :: 0 <= r < playerGrid.Length0 && 0 <= c < playerGrid.Length1 ==>
          playerGrid[r, c] == if c == col && row <= r < i then ShipPart else old(playerGrid[r, c])
      {
        playerGrid[i, col] := ShipPart;
        newShip := newShip + [Coord(col, i)];
        i := i + 1;
      }
      assert newShip == cells;
      forall i, j | 0 <= i < playerGrid.Length0 && 0 <= j < playerGrid.Length1
        ensures playerGrid[i, j] == if Coord(j, i) in newShip then ShipPart else old(playerGrid[i, j])
      {
        CoveredExactly(col, row, size, "down", Coord(j, i));
      }
    }

    /**
     * attack: with valid coordinates and a ship marker at (x, y), that cell
     * becomes a hit and the result is true; otherwise the board is left as
     * it was and the result is false.
     */
    method Attack(x: Option<int>, y: Option<int>) returns (hit: bool)
      requires Valid() && NotNegative(x) && NotNegative(y)
      modifies playerGrid
      ensures Valid()
      ensures hit <==> IsValidAttackCoordinates(boardSize, x, y) == Pass && old(playerGrid[y.value, x.value]) == ShipPart
      ensures hit ==> playerGrid[y.value, x.value] == Hit
      ensures !hit ==> unchanged(playerGrid)
      ensures forall i, j :: 0 <= i < playerGrid.Length0 && 0 <= j < playerGrid.Length1 && !(hit && i == y.value && j == x.value) ==>
        playerGrid[i, j] == old(playerGrid[i, j])
    {
      if IsValidAttackCoordinates(boardSize, x, y).Fail? {
        return false;
      }
      var coordinateValue := GetPosition(x.value, y.value);
      if coordinateValue == ShipPart {
        playerGrid[y.value, x.value] := Hit;
        return true;
      } else {
        return false;
      }
    }

    /** updateShipList: remove segment (x, y) from every ship, one index at a time. */
    method UpdateShipList(x: nat, y: nat)
      modifies this`playerShips
      ensures playerShips == RemoveSegment(old(playerShips), Coord(x, y))
    {
      var target := Coord(x, y);
      for index := 0 to |playerShips|
        invariant |playerShips| == |old(playerShips)|
        invariant forall k :: 0 <= k < index ==> playerShips[k] == Without(old(playerShips)[k], target)
        invariant forall k :: index <= k < |playerShips| ==> playerShips[k] == old(playerShips)[k]
      {
        playerShips := playerShips[index := Without(playerShips[index], target)];
      }
    }

    /**
     * One iteration of drawShips for slot i, which holds while i ships have
     * been pushed: on success the ship is pushed and the loop moves to slot
     * i + 1; on failure nothing changes and the same slot is tried again.
     * An empty ship (unrecognised direction, or a length of zero or less)
     * counts as placed.
     */
    method DrawShipsStep(i: nat, numberOfShips: int, x: Option<int>, y: Option<int>, shipSize: Option<int>, answer: string)
      returns (next: nat, r: Placement)
      requires Consistent() && |playerShips| == i < numberOfShips && NotNegative(x) && NotNegative(y)
      modifies this`playerShips, playerGrid
      ensures Consistent() && |playerShips| == next
      ensures var direction := PromptedDirection(shipSize, answer);
        && (PlacementCheck(boardSize, x, y, shipSize, direction).Fail? ==>
              r == Rejected(PlacementCheck(boardSize, x, y, shipSize, direction).fault))
        && (PlacementCheck(boardSize, x, y, shipSize, direction) == Pass ==>
              var cells := Covered(x.value, y.value, shipSize.value, direction);
              r == if old(Collides(cells)) then Rejected(ExistingShip) else Placed(cells))
      ensures r.Placed? ==> next == i + 1 && playerShips == old(playerShips) + [r.ship]
      ensures r.Rejected? ==> next == i && playerShips == old(playerShips) && unchanged(playerGrid)
      ensures r.Placed? ==> forall i, j :: 0 <= i < playerGrid.Length0 && 0 <= j < playerGrid.Length1 ==>
        playerGrid[i, j] == if Coord(j, i) in r.ship then ShipPart else old(playerGrid[i, j])
    {
      var direction := PromptedDirection(shipSize, answer);
      r := DrawShipToBoard(x, y, shipSize, direction);
      if r.Rejected? {
        return i, r;
      }
      ghost var ships := playerShips;
      PlacementStaysOnBoard(boardSize, x, y, shipSize, direction);
      playerShips := playerShips + [r.ship];
      // the new ship's cells held no ship before, so they were no old ship's segments
      forall k, c | 0 <= k < |ships| && c in ships[k] ensures c !in r.ship {
      }
      forall i, j | 0 <= i < playerGrid.Length0 && 0 <= j < playerGrid.Length1 && playerGrid[i, j] == ShipPart
        ensures exists k :: 0 <= k < |playerShips| && Coord(j, i) in playerShips[k]
      {
        if Coord(j, i) in r.ship {
          assert playerShips[|ships|] == r.ship;
        } else {
          var k :| 0 <= k < |ships| && Coord(j, i) in ships[k];
          assert playerShips[k] == ships[k];
        }
      }
      next := i + 1;
    }

    /**
     * One iteration of the startGame loop: attack; on a hit remove the
     * segment from the ships and stop the game when no ship has a segment
     * left. A miss or an invalid coordinate changes nothing.
     */
    method AttackStep(x: Option<int>, y: Option<int>) returns (hit: bool)
      requires Consistent() && isGameRunning && NotNegative(x) && NotNegative(y)
      modifies this`playerShips, this`isGameRunning, playerGrid
      ensures Consistent()
      ensures hit <==> IsValidAttackCoordinates(boardSize, x, y) == Pass && old(playerGrid[y.value, x.value]) == ShipPart
      ensures !hit ==> playerShips == old(playerShips) && isGameRunning && unchanged(playerGrid)
      ensures hit ==> playerShips == RemoveSegment(old(playerShips), Coord(x.value, y.value))
      ensures hit ==> playerGrid[y.value, x.value] == Hit
      ensures forall i, j :: 0 <= i < playerGrid.Length0 && 0 <= j < playerGrid.Length1 && !(hit && i == y.value && j == x.value) ==>
        playerGrid[i, j] == old(playerGrid[i, j])
      ensures hit ==> (isGameRunning <==> exists k :: 0 <= k < |playerShips| && playerShips[k] != [])
    {
      hit := Attack(x, y);
      if !hit {
        return;
      }
      assert HitPending(Coord(x.value, y.value));
      RecordHit(x.value, y.value);
    }

    /**
     * The hit branch of the startGame loop: remove the segment from every
     * ship, then stop the game if checkShips finds no segment left.
     */
    method RecordHit(x: nat, y: nat)
      requires HitPending(Coord(x, y))
      modifies this`playerShips, this`isGameRunning
      ensures Consistent()
      ensures playerShips == RemoveSegment(old(playerShips), Coord(x, y))
      ensures isGameRunning == (old(isGameRunning) && exists k :: 0 <= k < |playerShips| && playerShips[k] != [])
    {
      ghost var ships := playerShips;
      var target := Coord(x, y);
      UpdateShipList(x, y);
      forall k, c | 0 <= k < |playerShips| && c in playerShips[k]
        ensures c.x < boardSize && c.y < boardSize && playerGrid[c.y, c.x] == ShipPart
      {
        assert c in ships[k] && c != target;
      }
      forall i, j | 0 <= i < playerGrid.Length0 && 0 <= j < playerGrid.Length1 && playerGrid[i, j] == ShipPart
        ensures exists k :: 0 <= k < |playerShips| && Coord(j, i) in playerShips[k]
      {
        var k :| 0 <= k < |ships| && Coord(j, i) in ships[k];
        assert Coord(j, i) in playerShips[k];
      }
      assert Consistent();
      var shipsEmpty := CheckShips(playerShips);
      if shipsEmpty {
        isGameRunning := false;
      }
    }
  }

  /**
   * On a consistent session the win test of checkShips can be read off the
   * board: every ship is sunk exactly when no cell still shows a ship.
   */
  lemma AllSunkIffNoShipCell(s: Session)
    requires s.Consistent()
    ensures (forall k :: 0 <= k < |s.playerShips| ==> s.playerShips[k] == []) <==>
            (forall i, j :: 0 <= i < s.playerGrid.Length0 && 0 <= j < s.playerGrid.Length1 ==> s.playerGrid[i, j] != ShipPart)
  {
    if exists k :: 0 <= k < |s.playerShips| && s.playerShips[k] != [] {
      var k :| 0 <= k < |s.playerShips| && s.playerShips[k] != [];
      var c := s.playerShips[k][0];
      assert c in s.playerShips[k];
      assert s.playerGrid[c.y, c.x] == ShipPart;
    }
  }
}
