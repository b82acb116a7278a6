/** Directions of travel, the arrow keys that request them, and the one-cell
    step the head takes each tick. */
module Moves {
  import opened Board

  datatype Direction = Up | Down | Left | Right

  /** A key read during a tick: one of the four arrows, or any other key
      (no key at all included). The quit key is not modelled. */
  datatype Key = ArrowUp | ArrowDown | ArrowLeft | ArrowRight | Other

  function Opposite(d: Direction): (r: Direction)
    ensures r != d
  {
    match d
    case Up => Down
    case Down => Up
    case Left => Right
    case Right => Left
  }

  /** Reversing twice gives back the original direction. */
  lemma OppositeInvolutive(d: Direction)
    ensures Opposite(Opposite(d)) == d
  {
  }

  /** The direction an arrow key asks for. */
  function Requested(k: Key): Direction
    requires k != Other
  {
    match k
    case ArrowUp => Up
    case ArrowDown => Down
    case ArrowLeft => Left
    case ArrowRight => Right
  }

  /** The direction after a key press: an arrow turns the snake unless it
      asks for the reverse of the current direction; every other key keeps
      the direction. */
  function Turn(d: Direction, k: Key): (r: Direction)
    ensures r != Opposite(d)
    ensures k == Other ==> r == d
    ensures k != Other && Requested(k) != Opposite(d) ==> r == Requested(k)
    ensures k != Other && Requested(k) == Opposite(d) ==> r == d
  {
    match k
    case ArrowUp => if d != Down then Up else d
    case ArrowDown => if d != Up then Down else d
    case ArrowLeft => if d != Right then Left else d
    case ArrowRight => if d != Left then Right else d
    case Other => d
  }

  /** The cell one unit from p along d; y grows downwards. */
  function Step(p: Point, d: Direction): (q: Point)
    ensures Adjacent(p, q)
  {
    match d
    case Up => Point(p.x, p.y - 1)
    case Down => Point(p.x, p.y + 1)
    case Left => Point(p.x - 1, p.y)
    case Right => Point(p.x + 1, p.y)
  }

  /** Stepping back the opposite way returns to the start, and different
      directions lead to different cells. */
  lemma StepInverse(p: Point, d: Direction, e: Direction)
    ensures Step(Step(p, d), Opposite(d)) == p
    ensures Step(p, d) == Step(p, e) ==> d == e
  {
  }

  /** Every neighbour of p is reached by some direction (by only one, by
      StepInverse). */
  lemma AdjacentIsStep(p: Point, q: Point)
    requires Adjacent(p, q)
    ensures exists d :: Step(p, d) == q
  {
    if q.y == p.y - 1 {
      assert Step(p, Up) == q;
    } else if q.y == p.y + 1 {
      assert Step(p, Down) == q;
    } else if q.x == p.x - 1 {
      assert Step(p, Left) == q;
    } else {
      assert Step(p, Right) == q;
    }
  }
}
