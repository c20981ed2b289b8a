/**
 The arrow-key part of `handle_keys`: each key-down event may set the pending direction,
 but never to the opposite of the committed direction.
 */
module Keys {
  import opened Wrappers
  import opened Board
  import opened SnakeState

  datatype Key = ArrowUp | ArrowDown | ArrowLeft | ArrowRight | OtherKey

  /** An input event: a key press, or anything else the loop ignores. */
  datatype Event = KeyDown(key: Key) | OtherEvent

  /** The direction an arrow key asks for. */
  function KeyDirection(k: Key): Option<Direction> {
    match k
    case ArrowUp => Some(Up)
    case ArrowDown => Some(Down)
    case ArrowLeft => Some(Left)
    case ArrowRight => Some(Right)
    case OtherKey => None
  }

  /**
   Reference rule for one event: the requested direction is taken unless it is the exact
   opposite of `committed`.
   */
  function Accepted(e: Event, committed: Direction): (r: Option<Direction>)
    ensures r.Some? ==> r.value != Opposite(committed)
    ensures r.Some? ==> e.KeyDown? && r == KeyDirection(e.key)
    ensures e.KeyDown? && KeyDirection(e.key).Some? && KeyDirection(e.key).value != Opposite(committed) ==>
              r == KeyDirection(e.key)
  {
    match e
    case OtherEvent => None
    case KeyDown(k) =>
      match KeyDirection(k)
      case None => None
      case Some(d) => if d == Opposite(committed) then None else Some(d)
  }

  /** The guard chain of `handle_keys` for one event, branch by branch. */
  function HandleKey(s: Snake, e: Event): (r: Snake)
    ensures r == s.(next := r.next)
    ensures r.next == (if Accepted(e, s.direction).Some? then Accepted(e, s.direction) else s.next)
  {
    if !e.KeyDown? then s
    else if e.key == ArrowUp && s.direction != Down then s.(next := Some(Up))
    else if e.key == ArrowDown && s.direction != Up then s.(next := Some(Down))
    else if e.key == ArrowLeft && s.direction != Right then s.(next := Some(Left))
    else if e.key == ArrowRight && s.direction != Left then s.(next := Some(Right))
    else s
  }

  /**
   Reference for a whole batch: the direction of the last accepted event, if there is one.
   */
  function LastAccepted(events: seq<Event>, committed: Direction): (r: Option<Direction>)
    ensures r.None? <==> forall i :: 0 <= i < |events| ==> Accepted(events[i], committed).None?
    ensures r.Some? ==>
              exists i :: 0 <= i < |events| && Accepted(events[i], committed) == r
                          && forall j :: i < j < |events| ==> Accepted(events[j], committed).None?
    ensures r.Some? ==> r.value != Opposite(committed)
    decreases |events|
  {
    if |events| == 0 then None
    else
      match LastAccepted(events[1..], committed)
      case Some(d) => Some(d)
      case None => Accepted(events[0], committed)
  }

  /**
   The event loop of `handle_keys`, in order. Only the pending slot changes; the last
   accepted event wins, and with none accepted the pending slot keeps its old value.
   */
  function HandleKeys(s: Snake, events: seq<Event>): (r: Snake)
    ensures r == s.(next := r.next)
    ensures r.next == (if LastAccepted(events, s.direction).Some? then LastAccepted(events, s.direction) else s.next)
    decreases |events|
  {
    if |events| == 0 then s
    else HandleKeys(HandleKey(s, events[0]), events[1..])
  }

  /**
   Keys then `update_direction`, starting from an empty pending slot: the committed
   direction is that of the last accepted key, or unchanged, and is never the reverse of
   the direction before.
   */
  lemma CommitAfterKeys(s: Snake, events: seq<Event>)
    requires s.next == None
    ensures var r := UpdateDirection(HandleKeys(s, events));
            && r.direction == (if LastAccepted(events, s.direction).Some?
                               then LastAccepted(events, s.direction).value else s.direction)
            && r.direction != Opposite(s.direction)
            && r.next == None
  {
  }
}
