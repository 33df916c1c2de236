// Client checks of the session's contracts: whole games driven through the
// step methods, with the prompted answers given as arguments.
module Scenarios {
  import opened Utils
  import opened Board
  import opened Rules
  import opened Fleet
  import opened Game

  /** Attacking a cell a second time is a miss, whether or not the first attack hit. */
  method AttackTwice(s: Session, x: Option<int>, y: Option<int>) returns (first: bool, second: bool)
    requires s.Valid() && NotNegative(x) && NotNegative(y)
    modifies s.playerGrid
    ensures !second
  {
    first := s.Attack(x, y);
    second := s.Attack(x, y);
  }

  /**
   * A board of size 3 with one ship of length 2 at (0, 0) going right:
   * the ship covers (0, 0) and (1, 0); the first hit leaves (1, 0) and the
   * game running, the second sinks the ship and ends the game.
   */
  method OneShipGame()
    returns (placed: Placement, firstHit: bool, shipsAfterFirst: seq<Ship>, runningAfterFirst: bool,
             secondHit: bool, shipsAfterSecond: seq<Ship>, runningAfterSecond: bool)
    ensures placed == Placed([Coord(0, 0), Coord(1, 0)])
    ensures firstHit && shipsAfterFirst == [[Coord(1, 0)]] && runningAfterFirst
    ensures secondHit && shipsAfterSecond == [[]] && !runningAfterSecond
  {
    var s := new Session(3);
    var next;
    next, placed := s.DrawShipsStep(0, 1, Some(0), Some(0), Some(2), "right");
    assert Covered(0, 0, 2, "right") == [Coord(0, 0), Coord(1, 0)];
    assert s.playerShips == [[Coord(0, 0), Coord(1, 0)]];
    firstHit := s.AttackStep(Some(0), Some(0));
    assert Without([Coord(0, 0), Coord(1, 0)], Coord(0, 0)) == [Coord(1, 0)];
    shipsAfterFirst := s.playerShips;
    runningAfterFirst := s.isGameRunning;
    secondHit := s.AttackStep(Some(1), Some(0));
    shipsAfterSecond := s.playerShips;
    runningAfterSecond := s.isGameRunning;
  }

  /** An attack off a board of size 3 is rejected and changes nothing. */
  method OffBoardAttack() returns (hit: bool, s: Session)
    ensures !hit && s.playerShips == [] && s.isGameRunning
    ensures forall i, j :: 0 <= i < s.playerGrid.Length0 && 0 <= j < s.playerGrid.Length1 ==> s.playerGrid[i, j] == Empty(j, i)
  {
    s := new Session(3);
    hit := s.AttackStep(Some(5), Some(1));
  }
}
