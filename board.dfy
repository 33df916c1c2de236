// The board of game.ts: cells, coordinate keys and drawGrid.
module Board {

  /** A position on the board; x is the column and y the row (`board[y][x]`). */
  datatype Coord = Coord(x: nat, y: nat)

  /**
   * A cell of the board. The source stores strings: the empty marker
   * `"x-y"` of the cell's own position, the ship marker `"-"` and the
   * hit marker `"X"` (see Display).
   */
  datatype Cell = Empty(x: nat, y: nat) | ShipPart | Hit

  function Digit(d: nat): char
    requires d < 10
  {
    ('0' as int + d) as char
  }

  /** The decimal numeral of n, as a template literal `${n}` writes it. */
  function Decimal(n: nat): (r: string)
    ensures 1 <= |r| && (|r| == 1 <==> n < 10)
    ensures forall k :: 0 <= k < |r| ==> '0' <= r[k] <= '9'
  {
    if n < 10 then [Digit(n)] else Decimal(n / 10) + [Digit(n % 10)]
  }

  /**
   * The canonical segment key `${x}-${y}`: the only '-' in it sits right
   * after the x numeral, and it is never the ship or hit marker.
   */
  function Key(c: Coord): (r: string)
    ensures |r| == |Decimal(c.x)| + 1 + |Decimal(c.y)| && |r| >= 3
    ensures forall k :: 0 <= k < |r| ==> (r[k] == '-' <==> k == |Decimal(c.x)|)
    ensures r[..|Decimal(c.x)|] == Decimal(c.x) && r[|Decimal(c.x)| + 1..] == Decimal(c.y)
  {
    Decimal(c.x) + "-" + Decimal(c.y)
  }

  /** The string the source keeps in a cell. */
  function Display(cell: Cell): (r: string)
    ensures r == "-" <==> cell == ShipPart
    ensures r == "X" <==> cell == Hit
  {
    match cell
    case Empty(x, y) => Key(Coord(x, y))
    case ShipPart => "-"
    case Hit => "X"
  }

  lemma {:induction false} DecimalInjective(a: nat, b: nat)
    requires Decimal(a) == Decimal(b)
    ensures a == b
  {
    if a >= 10 && b >= 10 {
      var da, db := Decimal(a), Decimal(b);
      assert da[..|da| - 1] == Decimal(a / 10);
      assert db[..|db| - 1] == Decimal(b / 10);
      DecimalInjective(a / 10, b / 10);
      assert Digit(a % 10) == da[|da| - 1] == db[|db| - 1] == Digit(b % 10);
    }
  }

  /** The `"x-y"` encoding is injective on natural coordinates. */
  lemma KeyInjective(a: Coord, b: Coord)
    ensures Key(a) == Key(b) <==> a == b
  {
    if Key(a) == Key(b) {
      var sa, sb := Decimal(a.x), Decimal(b.x);
      var k := Key(a);
      // the first '-' of a key ends its x numeral
      assert k[|sa|] == '-' && Key(b)[|sb|] == '-';
      assert forall i :: 0 <= i < |sa| ==> k[i] == sa[i] != '-';
      assert forall i :: 0 <= i < |sb| ==> Key(b)[i] == sb[i] != '-';
      assert |sa| == |sb|;
      assert sa == k[..|sa|] == sb;
      assert Decimal(a.y) == k[|sa| + 1..] == Decimal(b.y);
      DecimalInjective(a.x, b.x);
      DecimalInjective(a.y, b.y);
    }
  }

  /** Distinct cells display as distinct strings, so the source's string tests decide the cell kind. */
  lemma DisplayInjective(a: Cell, b: Cell)
    ensures Display(a) == Display(b) <==> a == b
  {
    if Display(a) == Display(b) && a.Empty? && b.Empty? {
      KeyInjective(Coord(a.x, a.y), Coord(b.x, b.y));
    }
  }

  /**
   * drawGrid: boardSize rows of boardSize cells, the cell at row i and
   * column j holding the empty marker of (x = j, y = i). A size of zero
   * or less gives an empty board.
   */
  method DrawGrid(boardSize: int) returns (grid: array2<Cell>)
    ensures fresh(grid)
    ensures grid.Length0 == grid.Length1 == if boardSize > 0 then boardSize else 0
    ensures forall i, j :: 0 <= i < grid.Length0 && 0 <= j < grid.Length1 ==> grid[i, j] == Empty(j, i)
  {
    var n := if boardSize > 0 then boardSize else 0;
    grid := new Cell[n, n];
    for i := 0 to n
      invariant forall r, c :: 0 <= r < i && 0 <= c < n ==> grid[r, c] == Empty(c, r)
    {
      for j := 0 to n
        invariant forall r, c :: 0 <= r < i && 0 <= c < n ==> grid[r, c] == Empty(c, r)
        invariant forall c :: 0 <= c < j ==> grid[i, c] == Empty(c, i)
      {
        grid[i, j] := Empty(j, i);
      }
    }
  }
}
