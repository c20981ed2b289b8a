/**
 The apple's placement rule, `Apple.randomize_position`: draw a random grid cell, retry
 until it is acceptable. The random draws are supplied by the caller as a finite sequence.
 */
module Food {
  import opened Board

  /** One pair of `randint` results: a column in [0, 31] and a row in [0, 23]. */
  datatype Draw = Draw(col: int, row: int)

  predicate ValidDraw(d: Draw) {
    0 <= d.col <= GridWidth - 1 && 0 <= d.row <= GridHeight - 1
  }

  predicate ValidDraws(draws: seq<Draw>) {
    forall i :: 0 <= i < |draws| ==> ValidDraw(draws[i])
  }

  /** The pixel cell a draw denotes. */
  function DrawCell(d: Draw): Cell {
    Cell(d.col * GridSize, d.row * GridSize)
  }

  /** Cells an apple can be put on: grid-aligned, x in [0, 620], y in [0, 460]. */
  predicate AppleCell(c: Cell) {
    && c.x % GridSize == 0 && c.y % GridSize == 0
    && 0 <= c.x <= ScreenWidth - GridSize && 0 <= c.y <= ScreenHeight - GridSize
  }

  /**
   The loop's exit test: an empty (or absent) collection of occupied cells accepts every
   candidate; otherwise the candidate must not be one of them.
   */
  function Accepts(pos: Cell, occupied: seq<Cell>): (b: bool)
    ensures b <==> (forall i :: 0 <= i < |occupied| ==> occupied[i] != pos)
  {
    |occupied| == 0 || pos !in occupied
  }

  /** The outcome of the retry loop over the supplied draws. */
  datatype Placement =
    | Placed(cell: Cell, used: nat)  // accepted the cell of draw number `used` (1-based)
    | Exhausted                      // no supplied draw was accepted; the loop would keep drawing

  /**
   `randomize_position`: the first draw whose cell is accepted gives the apple's position.
   */
  function Randomize(draws: seq<Draw>, occupied: seq<Cell>): (p: Placement)
    ensures p.Placed? ==>
              && 1 <= p.used <= |draws|
              && p.cell == DrawCell(draws[p.used - 1])
              && Accepts(p.cell, occupied)
              && (forall i :: 0 <= i < p.used - 1 ==> !Accepts(DrawCell(draws[i]), occupied))
    ensures p.Exhausted? <==> (forall i :: 0 <= i < |draws| ==> !Accepts(DrawCell(draws[i]), occupied))
    ensures p.Placed? && ValidDraws(draws) ==> AppleCell(p.cell)
    ensures p.Placed? && |occupied| > 0 ==> p.cell !in occupied
    decreases |draws|
  {
    if |draws| == 0 then Exhausted
    else if Accepts(DrawCell(draws[0]), occupied) then Placed(DrawCell(draws[0]), 1)
    else
      match Randomize(draws[1..], occupied)
      case Placed(c, u) => Placed(c, u + 1)
      case Exhausted => Exhausted
  }
}
