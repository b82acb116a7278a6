/** The game-state engine: the snake's body, the food, the score and the
    direction, the list operations on the body, food placement, direction
    change and the per-tick step of the main loop. */
module SnakeGame {
  import opened Board
  import opened Moves

  /** Points for one piece of food. */
  const Reward := 10
  /** Segments of the snake at the start. */
  const InitialLength := 3

  /** What one tick did: moved, ate and grew, or ended the game. */
  datatype Outcome = Moved | Ate | HitWall | HitSelf {
    predicate Over() {
      this == HitWall || this == HitSelf
    }
  }

  /** A snapshot of the game's globals: the body from head to tail, the food,
      the score and the direction. */
  datatype State = State(body: seq<Point>, food: Point, score: int, dir: Direction)

  /** The cell the head moves into when key k is applied in state s. */
  ghost function Next(s: State, k: Key): Point
    requires |s.body| >= 1
  {
    Step(s.body[0], Turn(s.dir, k))
  }

  /** Applying k in s ends the game: the next cell is a wall or a segment. */
  ghost predicate Ends(s: State, k: Key)
    requires |s.body| >= 1
  {
    HitsWall(Next(s, k)) || Next(s, k) in s.body
  }

  /** One round of the main loop takes s to t: k is applied to the direction,
      then one tick runs. A collision changes nothing else; eating grows the
      body, adds the reward and places new food on a free cell; any other move
      slides the body by one cell. */
  ghost predicate Round(s: State, k: Key, t: State)
  {
    |s.body| >= 1 && t.dir == Turn(s.dir, k) &&
    var c := Next(s, k);
    (Ends(s, k) ==> t.body == s.body && t.food == s.food && t.score == s.score) &&
    (!Ends(s, k) && c == s.food ==>
       t.body == [c] + s.body && t.score == s.score + Reward && Free(t.body, t.food)) &&
    (!Ends(s, k) && c != s.food ==>
       t.body == [c] + s.body[..|s.body| - 1] && t.score == s.score && t.food == s.food)
  }

  /** When the tail lies beside the head, a move into the tail's cell would
      leave a well-formed body once the tail is dropped; Tick still reports it
      as HitSelf, because its candidate is in the body it tests before
      removing the tail. */
  lemma VacatedTailStaysDistinct(body: seq<Point>)
    requires |body| >= 2 && WellFormed(body) && Adjacent(body[0], body[|body| - 1])
    ensures WellFormed([body[|body| - 1]] + body[..|body| - 1])
  {
    var c := body[|body| - 1];
    var s := [c] + body[..|body| - 1];
    forall i, j | 0 <= i < j < |s| ensures s[i] != s[j] {
      assert s[j] == body[j - 1];
      if i > 0 {
        assert s[i] == body[i - 1];
      }
    }
    forall i | 0 <= i < |s| - 1 ensures Adjacent(s[i], s[i + 1]) {
      if i > 0 {
        assert s[i] == body[i - 1] && s[i + 1] == body[i];
      }
    }
  }

  class Game {
    /** The snake from head to tail; the head is body[0], the tail the last. */
    var body: seq<Point>
    var food: Point
    var score: int
    var dir: Direction

    /** The state between ticks: a well-formed body of at least the initial
        length, food on a free cell, and a score of one reward per segment
        grown. */
    ghost predicate Valid()
      reads this
    {
      |body| >= InitialLength && WellFormed(body) && Free(body, food) &&
      score == Reward * (|body| - InitialLength)
    }

    /** The neck lies one cell behind the head, against the direction of
        travel; this holds after every surviving tick. */
    ghost predicate Aligned()
      reads this
    {
      |body| >= 2 && body[1] == Step(body[0], Opposite(dir))
    }

    ghost function Snapshot(): State
      reads this
    {
      State(body, food, score, dir)
    }

    ghost function Tail(): Point
      reads this
      requires |body| >= 1
    {
      body[|body| - 1]
    }

    /** The cell the head moves into on the next tick. */
    ghost function Candidate(): Point
      reads this
      requires |body| >= 1
    {
      Step(body[0], dir)
    }

    /** Start of a game: the initial values of the globals, the three-segment
        snake of init_game, then the first food. */
    constructor ()
      ensures Valid() && Aligned()
      ensures body == [Point(Width / 2 + 2, Height / 2), Point(Width / 2 + 1, Height / 2),
                       Point(Width / 2, Height / 2)]
      ensures dir == Right && score == 0
    {
      body := [];
      food := Point(0, 0);
      score := 0;
      dir := Right;
      new;
      InitGame();
      FreeCellExists(body);
      PlaceFood();
    }

    /** Three segments at the centre row, tail at the centre, head two cells
        to its right. */
    method InitGame()
      modifies this`body
      ensures body == [Point(Width / 2 + 2, Height / 2), Point(Width / 2 + 1, Height / 2),
                       Point(Width / 2, Height / 2)] + old(body)
    {
      var midX := Width / 2;
      var midY := Height / 2;
      AddHead(Point(midX, midY));
      AddHead(Point(midX + 1, midY));
      AddHead(Point(midX + 2, midY));
    }

    /** Prepends p as the new head; the tail becomes p only on an empty snake. */
    method AddHead(p: Point)
      modifies this`body
      ensures body == [p] + old(body)
      ensures |body| == |old(body)| + 1 && body[0] == p
      ensures old(body) == [] ==> Tail() == p
      ensures old(body) != [] ==> Tail() == old(Tail())
    {
      body := [p] + body;
    }

    /** Drops the tail segment, walking from the head to the segment before
        it; a snake of at most one segment is left as it is. */
    method RemoveTail()
      modifies this`body
      ensures |old(body)| <= 1 ==> body == old(body)
      ensures |old(body)| > 1 ==> body == old(body)[..|old(body)| - 1]
    {
      if |body| <= 1 {
        return;
      }
      var current := 0;
      while current + 1 != |body| - 1
        invariant 0 <= current < |body| - 1  // current never passes the node before the tail
        decreases |body| - 1 - current
      {
        current := current + 1;
      }
      body := body[..current + 1];
    }

    /** Whether p is a segment of the snake. */
    method Collision(p: Point) returns (hit: bool)
      ensures hit <==> p in body
    {
      var current := 0;
      while current < |body|
        invariant 0 <= current <= |body|
        invariant forall k :: 0 <= k < current ==> body[k] != p
      {
        if body[current] == p {
          return true;
        }
        current := current + 1;
      }
      return false;
    }

    /** Puts the food on some free interior cell; which one is left open,
        standing for the random retries of the source. */
    method PlaceFood()
      requires exists p :: Free(body, p)
      modifies this`food
      ensures Free(body, food)
    {
      var p :| Free(body, p);
      food := p;
    }

    /** Applies a key press to the direction; a reversing arrow is ignored,
        so the next move never goes back into the neck. */
    method UpdateDirection(key: Key)
      modifies this`dir
      ensures dir == Turn(old(dir), key)
      ensures old(Aligned()) ==> Candidate() != body[1]
    {
      match key {
        case ArrowUp =>
          if dir != Down { dir := Up; }
        case ArrowDown =>
          if dir != Up { dir := Down; }
        case ArrowLeft =>
          if dir != Right { dir := Left; }
        case ArrowRight =>
          if dir != Left { dir := Right; }
        case Other =>
      }
      if old(Aligned()) && Candidate() == body[1] {
        StepInverse(body[0], dir, Opposite(old(dir)));
      }
    }

    /** One tick of the main loop. The game ends, with nothing changed, when
        the next cell is a wall or any current segment, the tail included.
        Otherwise the head advances one cell along dir; on the food the snake
        grows by one, the score rises by the reward and new food is placed,
        and elsewhere the tail is dropped and the food stays. */
    method Tick() returns (outcome: Outcome)
      requires Valid()
      requires Candidate() == food ==> |body| + 1 < InteriorArea
      modifies this`body, this`food, this`score
      ensures Valid() && dir == old(dir)
      ensures outcome == HitWall <==> HitsWall(old(Candidate()))
      ensures outcome == HitSelf <==> !HitsWall(old(Candidate())) && old(Candidate()) in old(body)
      ensures outcome == Ate <==> old(Candidate()) == old(food)
      ensures outcome.Over() ==> body == old(body) && food == old(food) && score == old(score)
      ensures outcome == Ate ==>
                body == [old(Candidate())] + old(body) && score == old(score) + Reward
      ensures outcome == Moved ==>
                body == [old(Candidate())] + old(body)[..|old(body)| - 1] &&
                score == old(score) && food == old(food)
      ensures !outcome.Over() ==> Aligned() && Adjacent(old(body)[0], body[0])
    {
      var head := body[0];
      var next := Step(head, dir);
      if HitsWall(next) {
        return HitWall;
      }
      var hit := Collision(next);
      if hit {
        return HitSelf;
      }
      PrependKeepsShape(body, next);
      AddHead(next);
      StepInverse(head, dir, dir);
      if next == food {
        score := score + Reward;
        FreeCellExists(body);
        PlaceFood();
        outcome := Ate;
      } else {
        DropLastKeepsShape(body);
        RemoveTail();
        outcome := Moved;
      }
    }

    /** The main loop over a sequence of key presses: each round applies the
        key, then ticks, and the loop stops for good at the first collision. */
    method Run(keys: seq<Key>) returns (over: bool, ticks: nat, ghost trace: seq<State>)
      requires Valid() && |body| + |keys| < InteriorArea
      modifies this`body, this`food, this`score, this`dir
      ensures Valid()
      ensures ticks <= |keys| && (!over ==> ticks == |keys|)
      ensures |old(body)| <= |body| <= |old(body)| + ticks
      ensures over ==> ticks >= 1 && (HitsWall(Candidate()) || Candidate() in body)
      ensures |trace| == ticks + 1 && trace[0] == old(Snapshot()) && trace[ticks] == Snapshot()
      ensures forall i :: 0 <= i < ticks ==> Round(trace[i], keys[i], trace[i + 1])
      ensures forall i :: 0 <= i < ticks ==>
                |trace[i].body| >= 1 && (Ends(trace[i], keys[i]) <==> over && i == ticks - 1)
    {
      over, ticks, trace := false, 0, [Snapshot()];
      while ticks < |keys|
        invariant Valid()
        invariant ticks <= |keys|
        invariant |old(body)| <= |body| <= |old(body)| + ticks
        invariant |trace| == ticks + 1 && trace[0] == old(Snapshot()) && trace[ticks] == Snapshot()
        invariant forall i :: 0 <= i < ticks ==> Round(trace[i], keys[i], trace[i + 1])
        invariant forall i :: 0 <= i < ticks ==> |trace[i].body| >= 1 && !Ends(trace[i], keys[i])
      {
        ghost var before := Snapshot();
        UpdateDirection(keys[ticks]);
        var outcome := Tick();
        assert Round(before, keys[ticks], Snapshot());
        assert Ends(before, keys[ticks]) <==> outcome.Over();
        trace := trace + [Snapshot()];
        ticks := ticks + 1;
        if outcome.Over() {
          return true, ticks, trace;
        }
      }
    }
  }

  /** A snake with its head beside the left wall, moving left, hits it. */
  method WallScenario() returns (outcome: Outcome, length: nat)
    ensures outcome == HitWall && length == 3
  {
    var g := new Game();
    g.body, g.dir, g.food, g.score := [Point(1, 10), Point(2, 10), Point(3, 10)], Left, Point(5, 5), 0;
    outcome := g.Tick();
    length := |g.body|;
  }

  /** Food right in front of the head is eaten: the snake grows to four
      segments and the score rises by the reward. */
  method EatScenario() returns (outcome: Outcome, head: Point, length: nat, score: int)
    ensures outcome == Ate && head == Point(11, 10) && length == 4 && score == Reward
  {
    var g := new Game();
    g.body, g.dir, g.food, g.score := [Point(10, 10), Point(9, 10), Point(8, 10)], Right, Point(11, 10), 0;
    outcome := g.Tick();
    head, length, score := g.body[0], |g.body|, g.score;
  }

  /** Food elsewhere: the snake slides one cell to the right. */
  method MoveScenario() returns (outcome: Outcome, body: seq<Point>, food: Point)
    ensures outcome == Moved && body == [Point(11, 10), Point(10, 10), Point(9, 10)]
    ensures food == Point(20, 15)
  {
    var g := new Game();
    g.body, g.dir, g.food, g.score := [Point(10, 10), Point(9, 10), Point(8, 10)], Right, Point(20, 15), 0;
    outcome := g.Tick();
    body, food := g.body, g.food;
  }

  /** A snake curled into a square that moves into its own tail cell dies. */
  method TailChaseScenario() returns (outcome: Outcome)
    ensures outcome == HitSelf
  {
    var g := new Game();
    g.body, g.dir, g.food, g.score := [Point(5, 5), Point(6, 5), Point(6, 6), Point(5, 6)], Down, Point(10, 10), Reward;
    outcome := g.Tick();
  }
}
