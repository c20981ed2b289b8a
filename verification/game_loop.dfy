/**
 One pass of the body of `main`'s loop: keys, commit, move, the self-collision check with
 reset and apple relocation, then the eat check with growth and relocation.
 */
module GameLoop {
  import opened Wrappers
  import opened Board
  import opened Food
  import opened SnakeState
  import opened Keys

  datatype Game = Game(snake: Snake, apple: Cell)

  /**
   The result of running game logic against a finite prefix of the random draws:
   `Running` holds the new state; `Stalled` means an apple relocation found no acceptable
   draw among those supplied, so the source would still be drawing.
   */
  datatype Step = Running(game: Game) | Stalled

  /**
   The state kept between ticks: a well-formed snake with nothing pending, and the apple on
   an apple cell that no body cell covers.
   */
  predicate ValidGame(g: Game) {
    && WellFormed(g.snake)
    && g.snake.next == None
    && AppleCell(g.apple)
    && g.apple !in g.snake.positions
  }

  /** Start of `main`: a fresh snake and `Apple(snake.positions)`. */
  function NewGame(draws: seq<Draw>): (r: Step)
    ensures r.Running? ==> r.game.snake == Init()
    ensures r.Stalled? <==> forall i :: 0 <= i < |draws| ==> DrawCell(draws[i]) == Cell(320, 240)
    ensures r.Running? && ValidDraws(draws) ==> ValidGame(r.game)
  {
    var s := Init();
    match Randomize(draws, s.positions)
    case Placed(a, _) => Running(Game(s, a))
    case Exhausted => Stalled
  }

  /** `handle_keys`, then `update_direction`, then `move`. */
  function Advance(s: Snake, events: seq<Event>): Snake
    requires |s.positions| > 0
  {
    Move(UpdateDirection(HandleKeys(s, events)))
  }

  /**
   The eat check: when the head is on the apple the target length grows by one and the
   apple is relocated off the body; otherwise nothing changes.
   */
  function EatCheck(s: Snake, apple: Cell, draws: seq<Draw>): (r: Step)
    requires |s.positions| > 0
    ensures HeadPosition(s) != apple ==> r == Running(Game(s, apple))
    ensures HeadPosition(s) == apple && r.Running? ==>
              && r.game.snake == s.(length := s.length + 1)
              && r.game.apple !in s.positions
    ensures HeadPosition(s) == apple && ValidDraws(draws) && r.Running? ==> AppleCell(r.game.apple)
  {
    if HeadPosition(s) == apple then
      var grown := s.(length := s.length + 1);
      match Randomize(draws, grown.positions)
      case Placed(a, _) => Running(Game(grown, a))
      case Exhausted => Stalled
    else
      Running(Game(s, apple))
  }

  /**
   One tick. `events` are the key events polled this tick, `resetDirection` is what
   `choice` returns if the snake resets, and `draws` are the `randint` pairs available to
   the apple relocations, consumed in order.
   */
  function Tick(g: Game, events: seq<Event>, resetDirection: Direction, draws: seq<Draw>): (r: Step)
    requires |g.snake.positions| > 0
    ensures r.Running? ==> |r.game.snake.positions| > 0 && r.game.snake.next == None
    // collision: reset, apple moved off the centre, and no growth on the same tick
    ensures var m := Advance(g.snake, events);
            Collides(m) && r.Running? ==>
              && r.game.snake == Snake([Cell(320, 240)], 1, resetDirection, None, None)
              && r.game.apple != Cell(320, 240)
    // no collision, apple eaten: one more unit of length and the apple moved off the body
    ensures var m := Advance(g.snake, events);
            !Collides(m) && m.positions[0] == g.apple && r.Running? ==>
              && r.game.snake == m.(length := g.snake.length + 1)
              && r.game.apple !in r.game.snake.positions
    // no collision, nothing eaten: just the move
    ensures var m := Advance(g.snake, events);
            !Collides(m) && m.positions[0] != g.apple ==> r == Running(Game(m, g.apple))
    // the tick only stalls when it has to relocate the apple
    ensures var m := Advance(g.snake, events);
            r.Stalled? ==> Collides(m) || m.positions[0] == g.apple
    // a tick without collision never reverses the committed direction
    ensures g.snake.next == None && r.Running? && !Collides(Advance(g.snake, events)) ==>
              r.game.snake.direction != Opposite(g.snake.direction)
    // the between-ticks invariant is kept
    ensures ValidGame(g) && ValidDraws(draws) && r.Running? ==> ValidGame(r.game)
  {
    var m := Advance(g.snake, events);
    if Collides(m) then
      var s := Reset(m, resetDirection);
      match Randomize(draws, s.positions)
      case Placed(a, used) => EatCheck(s, a, draws[used..])
      case Exhausted => Stalled
    else
      EatCheck(m, g.apple, draws)
  }

  /** What one tick consumes from outside: polled events, the reset choice, the draws. */
  datatype TickInput = TickInput(events: seq<Event>, resetDirection: Direction, draws: seq<Draw>)

  predicate ValidInputs(inputs: seq<TickInput>) {
    forall i :: 0 <= i < |inputs| ==> ValidDraws(inputs[i].draws)
  }

  /**
   Successive passes of the `while True` loop, one per input, stopping early if a tick
   stalls. The between-ticks invariant holds after every number of ticks.
   */
  function Run(g: Game, inputs: seq<TickInput>): (r: Step)
    requires |g.snake.positions| > 0
    ensures r.Running? ==> |r.game.snake.positions| > 0
    ensures ValidGame(g) && ValidInputs(inputs) && r.Running? ==> ValidGame(r.game)
    decreases |inputs|
  {
    if |inputs| == 0 then Running(g)
    else
      match Tick(g, inputs[0].events, inputs[0].resetDirection, inputs[0].draws)
      case Stalled => Stalled
      case Running(g') => Run(g', inputs[1..])
  }
}
