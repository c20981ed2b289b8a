/**
 The snake: its body (head first), target length, committed and pending directions and the
 cell it last vacated, with the operations `update_direction`, `get_head_position`,
 `reset` and `move`.
 */
module SnakeState {
  import opened Wrappers
  import opened Board

  /**
   `positions` lists the body with the head at index 0; `length` is the target body size;
   `next` is the pending direction set by key handling; `last` is the tail cell dropped by
   the latest move, if any.
   */
  datatype Snake = Snake(
    positions: seq<Cell>,
    length: nat,
    direction: Direction,
    next: Option<Direction>,
    last: Option<Cell>)

  /** The state every reachable snake is in: a body of 1 to `length` cells, all on the board. */
  predicate WellFormed(s: Snake) {
    && 1 <= |s.positions| <= s.length
    && forall i :: 0 <= i < |s.positions| ==> OnBoard(s.positions[i])
  }

  /** `Snake.__init__`: one cell at the centre, length 1, heading right, nothing pending. */
  function Init(): (s: Snake)
    ensures WellFormed(s)
    ensures s.positions == [Cell(320, 240)] && s.length == 1
    ensures s.direction == Right && s.next == None && s.last == None
  {
    Snake([Center], 1, Right, None, None)
  }

  /** `get_head_position`: the first body cell. */
  function HeadPosition(s: Snake): (h: Cell)
    requires |s.positions| > 0
    ensures s.positions == [h] + s.positions[1..]
    ensures WellFormed(s) ==> OnBoard(h)
  {
    s.positions[0]
  }

  /**
   `update_direction`: a pending direction becomes the committed one and the pending slot
   is emptied; with nothing pending the snake is left as it is.
   */
  function UpdateDirection(s: Snake): (r: Snake)
    ensures r.next == None
    ensures s.next.Some? ==> r.direction == s.next.value
    ensures s.next.None? ==> r == s
    ensures r.positions == s.positions && r.length == s.length && r.last == s.last
  {
    if s.next.Some? then s.(direction := s.next.value, next := None) else s
  }

  /**
   `reset`: back to one cell at the centre with length 1 and no vacated cell, heading in
   `d`, the direction `choice` picked. The pending slot is not touched.
   */
  function Reset(s: Snake, d: Direction): (r: Snake)
    ensures WellFormed(r)
    ensures r.positions == [Cell(320, 240)] && r.length == 1 && r.last == None
    ensures r.direction == d && r.next == s.next
  {
    s.(length := 1, positions := [Center], direction := d, last := None)
  }

  /**
   `move`: put the stepped head in front of the body; if the body is then longer than
   `length`, drop and remember its final cell, otherwise remember nothing.
   */
  function Move(s: Snake): (r: Snake)
    requires |s.positions| > 0
    ensures |r.positions| > 0 && r.positions[0] == StepHead(s.positions[0], s.direction)
    ensures |s.positions| < s.length ==>
              && r.positions == [r.positions[0]] + s.positions
              && |r.positions| == |s.positions| + 1
              && r.last == None
    ensures |s.positions| >= s.length ==>
              && r.positions == [r.positions[0]] + s.positions[..|s.positions| - 1]
              && |r.positions| == |s.positions|
              && r.last == Some(s.positions[|s.positions| - 1])
    ensures r.length == s.length && r.direction == s.direction && r.next == s.next
    ensures WellFormed(s) ==> WellFormed(r)
  {
    var body := [StepHead(HeadPosition(s), s.direction)] + s.positions;
    if |body| > s.length then
      s.(positions := body[..|body| - 1], last := Some(body[|body| - 1]))
    else
      s.(positions := body, last := None)
  }

  /**
   The self-collision test of the main loop: the head equals some later body cell. A body
   of one cell never collides.
   */
  function Collides(s: Snake): (b: bool)
    requires |s.positions| > 0
    ensures b <==> exists i :: 1 <= i < |s.positions| && s.positions[i] == s.positions[0]
    ensures |s.positions| == 1 ==> !b
  {
    HeadPosition(s) in s.positions[1..]
  }

  /** `n` consecutive moves with no key pressed and no food eaten. */
  function MoveTimes(s: Snake, n: nat): (r: Snake)
    requires |s.positions| > 0
    ensures |r.positions| > 0 && r.direction == s.direction
    decreases n
  {
    if n == 0 then s else Move(MoveTimes(s, n - 1))
  }

  /**
   Heading right along the centre row from the start, after `k` <= 16 moves the one-cell
   body is at x = 320 + 20k and the cell just vacated is the one before it.
   */
  lemma {:induction false} RightwardFromCentre(k: nat)
    requires k <= 16
    ensures MoveTimes(Init(), k)
            == Snake([Cell(320 + 20 * k, 240)], 1, Right, None,
                     if k == 0 then None else Some(Cell(300 + 20 * k, 240)))
  {
    if k > 0 {
      RightwardFromCentre(k - 1);
    }
  }

  /**
   From the start, heading right along the centre row: the head needs 16 moves to reach
   the unwrapped x = 640 and a 17th to re-enter at x = 0, so a full lap takes 33 moves.
   */
  lemma {:induction false} RightwardLapFromCentre()
    ensures HeadPosition(MoveTimes(Init(), 16)) == Cell(640, 240)
    ensures HeadPosition(MoveTimes(Init(), 17)) == Cell(0, 240)
  {
    RightwardFromCentre(16);
  }
}
