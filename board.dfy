/** The board of the snake game: a fixed WIDTH x HEIGHT grid whose outer ring
    of cells is wall, the cells strictly inside it, and the shape invariants of
    a snake body laid out on it. */
module Board {

  const Width := 40
  const Height := 20

  /** Number of cells strictly inside the walls: 38 * 18. */
  const InteriorArea := (Width - 2) * (Height - 2)

  datatype Point = Point(x: int, y: int)

  /** A cell strictly inside the walls, where the snake and the food may be. */
  predicate Interior(p: Point) {
    1 <= p.x <= Width - 2 && 1 <= p.y <= Height - 2
  }

  /** The wall test of the game loop: the cell is on or beyond the perimeter. */
  function HitsWall(p: Point): (hit: bool)
    ensures hit <==> !Interior(p)
  {
    p.x <= 0 || p.x >= Width - 1 || p.y <= 0 || p.y >= Height - 1
  }

  /** Two cells that share a side. */
  predicate Adjacent(p: Point, q: Point) {
    (p.x == q.x && (p.y - q.y == 1 || q.y - p.y == 1)) ||
    (p.y == q.y && (p.x - q.x == 1 || q.x - p.x == 1))
  }

  /** A cell where food may be placed: inside the walls and off the body. */
  predicate Free(body: seq<Point>, p: Point) {
    Interior(p) && p !in body
  }

  // Shape of a snake body, listed from head to tail.

  ghost predicate Inside(body: seq<Point>) {
    forall i :: 0 <= i < |body| ==> Interior(body[i])
  }

  ghost predicate Distinct(body: seq<Point>) {
    forall i, j :: 0 <= i < j < |body| ==> body[i] != body[j]
  }

  ghost predicate Connected(body: seq<Point>) {
    forall i :: 0 <= i < |body| - 1 ==> Adjacent(body[i], body[i + 1])
  }

  ghost predicate WellFormed(body: seq<Point>) {
    Inside(body) && Distinct(body) && Connected(body)
  }

  /** Prepending a fresh interior cell next to the head keeps the shape. */
  lemma PrependKeepsShape(body: seq<Point>, c: Point)
    requires WellFormed(body) && |body| >= 1
    requires Interior(c) && c !in body && Adjacent(c, body[0])
    ensures WellFormed([c] + body)
  {
    var s := [c] + body;
    forall i, j | 0 <= i < j < |s| ensures s[i] != s[j] {
      if i == 0 {
        assert s[j] == body[j - 1];
      } else {
        assert s[i] == body[i - 1] && s[j] == body[j - 1];
      }
    }
    forall i | 0 <= i < |s| - 1 ensures Adjacent(s[i], s[i + 1]) {
      if i > 0 {
        assert s[i] == body[i - 1] && s[i + 1] == body[i];
      }
    }
  }

  /** Dropping the tail keeps the shape. */
  lemma DropLastKeepsShape(body: seq<Point>)
    requires WellFormed(body) && |body| >= 1
    ensures WellFormed(body[..|body| - 1])
  {
  }

  // Counting cells, so that food placement can be shown to succeed.

  /** The set of cells a body occupies. */
  function Cells(body: seq<Point>): (r: set<Point>)
    ensures forall p :: p in r <==> p in body
    ensures |r| <= |body|
  {
    if body == [] then {} else {body[0]} + Cells(body[1..])
  }

  /** The cells with 1 <= x <= w and 1 <= y <= h. */
  ghost function Rect(w: nat, h: nat): set<Point> {
    set x: int, y: int | 1 <= x <= w && 1 <= y <= h :: Point(x, y)
  }

  /** Row y of Rect(w, _). */
  ghost function Row(w: nat, y: int): set<Point> {
    set x: int | 1 <= x <= w :: Point(x, y)
  }

  lemma {:induction false} RowSize(w: nat, y: int)
    ensures |Row(w, y)| == w
  {
    if w == 0 {
      assert Row(w, y) == {};
    } else {
      assert Row(w, y) == Row(w - 1, y) + {Point(w, y)};
      RowSize(w - 1, y);
    }
  }

  /** Rect(w, h) is Rect(w, h - 1) plus its last row, which it does not
      already hold. */
  lemma RectSplit(w: nat, h: nat)
    requires h > 0
    ensures Rect(w, h) == Rect(w, h - 1) + Row(w, h)
    ensures Rect(w, h - 1) * Row(w, h) == {}
  {
  }

  lemma {:induction false} RectSize(w: nat, h: nat)
    ensures |Rect(w, h)| == w * h
  {
    if h == 0 {
      assert Rect(w, h) == {};
    } else {
      RectSplit(w, h);
      RectSize(w, h - 1);
      RowSize(w, h);
      assert w * (h - 1) + w == w * h;
    }
  }

  /** The interior holds exactly InteriorArea cells. */
  lemma InteriorSize()
    ensures forall p :: p in Rect(Width - 2, Height - 2) <==> Interior(p)
    ensures |Rect(Width - 2, Height - 2)| == InteriorArea
  {
    RectSize(Width - 2, Height - 2);
  }

  lemma SubsetSize(a: set<Point>, b: set<Point>)
    requires a <= b
    ensures |a| <= |b|
  {
    assert b == a + (b - a);
  }

  /** While the body is shorter than the interior, a free cell exists, so
      the retry loop of food placement can end. */
  lemma FreeCellExists(body: seq<Point>)
    requires |body| < InteriorArea
    ensures exists p :: Free(body, p)
  {
    InteriorSize();
    var all := Rect(Width - 2, Height - 2);
    if all <= Cells(body) {
      SubsetSize(all, Cells(body));
      assert false;
    }
    var p :| p in all && p !in Cells(body);
    assert Free(body, p);
  }

  /** A well-formed body never holds more cells than the interior. */
  lemma LengthBound(body: seq<Point>)
    requires WellFormed(body)
    ensures |body| <= InteriorArea
  {
    InteriorSize();
    DistinctCells(body);
    SubsetSize(Cells(body), Rect(Width - 2, Height - 2));
  }

  /** A well-formed body as long as the interior covers every interior cell,
      so food placement would find no free cell. */
  lemma FullBodyLeavesNoFreeCell(body: seq<Point>)
    requires WellFormed(body) && |body| == InteriorArea
    ensures forall p :: !Free(body, p)
  {
    InteriorSize();
    DistinctCells(body);
    var all := Rect(Width - 2, Height - 2);
    assert Cells(body) <= all;
    assert all == Cells(body) + (all - Cells(body));
    assert all - Cells(body) == {};
  }

  lemma {:induction false} DistinctCells(body: seq<Point>)
    requires Distinct(body)
    ensures |Cells(body)| == |body|
  {
    if body != [] {
      DistinctCells(body[1..]);
      assert body[0] !in body[1..];
    }
  }
}
