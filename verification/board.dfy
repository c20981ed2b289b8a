/**
 The playing field: screen and grid constants, cells, the four directions, and the
 head-stepping rule of `Snake.move` with its wrap-around arithmetic exactly as written.
 */
module Board {

  const ScreenWidth: int := 640
  const ScreenHeight: int := 480
  const GridSize: int := 20
  const GridWidth: int := ScreenWidth / GridSize
  const GridHeight: int := ScreenHeight / GridSize

  /** A pixel coordinate pair (x, y). */
  datatype Cell = Cell(x: int, y: int)

  /** The four unit vectors UP = (0, -1), DOWN = (0, 1), LEFT = (-1, 0), RIGHT = (1, 0). */
  datatype Direction = Up | Down | Left | Right

  function Dx(d: Direction): int {
    match d
    case Up => 0
    case Down => 0
    case Left => -1
    case Right => 1
  }

  function Dy(d: Direction): int {
    match d
    case Up => -1
    case Down => 1
    case Left => 0
    case Right => 0
  }

  /** The direction whose unit vector is the negation of `d`'s. */
  function Opposite(d: Direction): (o: Direction)
    ensures Dx(o) == -Dx(d) && Dy(o) == -Dy(d)
    ensures o != d
  {
    match d
    case Up => Down
    case Down => Up
    case Left => Right
    case Right => Left
  }

  /** The centre of the screen, where the snake starts and restarts. */
  const Center: Cell := Cell(ScreenWidth / 2, ScreenHeight / 2)

  /**
   The cells a head can reach: grid-aligned, x in [0, 640] and y in [0, 480]. The right and
   bottom edges are included because the wrap rule lets the head rest there for one tick.
   */
  predicate OnBoard(c: Cell) {
    && c.x % GridSize == 0 && c.y % GridSize == 0
    && 0 <= c.x <= ScreenWidth && 0 <= c.y <= ScreenHeight
  }

  /**
   Independent description of one step from an on-board cell, direction by direction:
   right from x = 640 re-enters at 0, left from 0 at 620, up from y = 0 at 480, and down
   from 480 at 20; every other step just moves one cell.
   */
  function WrapTable(head: Cell, d: Direction): Cell {
    match d
    case Right => if head.x == ScreenWidth then Cell(0, head.y) else Cell(head.x + GridSize, head.y)
    case Left => if head.x == 0 then Cell(ScreenWidth - GridSize, head.y) else Cell(head.x - GridSize, head.y)
    case Up => if head.y == 0 then Cell(head.x, ScreenHeight) else Cell(head.x, head.y - GridSize)
    case Down => if head.y == ScreenHeight then Cell(head.x, GridSize) else Cell(head.x, head.y + GridSize)
  }

  /**
   The new head position computed by `Snake.move`: step one cell in `d`, then apply the
   four wrap branches in their source order. Only the first branch that fires applies.
   */
  function StepHead(head: Cell, d: Direction): (r: Cell)
    // horizontal edges
    ensures d == Right && head.x == 640 ==> r == Cell(0, head.y)
    ensures d == Right && head.x == 620 && 0 <= head.y <= 480 ==> r == Cell(640, head.y)
    ensures d == Left && head.x == 0 ==> r == Cell(620, head.y)
    ensures (d == Left || d == Right) && 0 <= head.y <= 480 ==> r.y == head.y
    // vertical edges
    ensures d == Up && head.y == 0 && 0 <= head.x <= 640 ==> r == Cell(head.x, 480)
    ensures d == Down && head.y == 460 && 0 <= head.x <= 640 ==> r == Cell(head.x, 480)
    ensures d == Down && head.y == 480 && 0 <= head.x <= 640 ==> r == Cell(head.x, 20)
    ensures (d == Up || d == Down) && 0 <= head.x <= 640 ==> r.x == head.x
    // from any reachable cell the step stays reachable and follows the table
    ensures OnBoard(head) ==> OnBoard(r) && r == WrapTable(head, d)
  {
    var nx := head.x + Dx(d) * GridSize;
    var ny := head.y + Dy(d) * GridSize;
    if nx > ScreenWidth then Cell(nx - ScreenWidth - GridSize, ny)
    else if nx < 0 then Cell(nx + ScreenWidth, ny)
    else if ny < 0 then Cell(nx, ny + ScreenHeight + GridSize)
    else if ny > ScreenHeight && ny % ScreenHeight != 0 then Cell(nx, ny % ScreenHeight)
    else Cell(nx, ny)
  }
}
