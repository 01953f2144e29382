/**
 * The square board of the game: cells, the four directions, one step of the
 * head, and the shape a snake keeps on the board.
 */
module Grid {

  /** A board cell; x grows to the right and y grows downwards, as on the canvas. */
  datatype Cell = Cell(x: int, y: int)

  datatype Direction = Up | Down | Left | Right

  /** The reverse of a direction, the one key press the controls refuse. */
  function Opposite(d: Direction): (r: Direction)
    ensures r != d
  {
    match d
    case Up => Down
    case Down => Up
    case Left => Right
    case Right => Left
  }

  /** The new head: the head moved one unit in direction d (UP decreases y). */
  function Step(c: Cell, d: Direction): (r: Cell)
    ensures Adjacent(c, r)
  {
    match d
    case Up => Cell(c.x, c.y - 1)
    case Down => Cell(c.x, c.y + 1)
    case Left => Cell(c.x - 1, c.y)
    case Right => Cell(c.x + 1, c.y)
  }

  /** Two cells one unit apart along exactly one axis. */
  predicate Adjacent(a: Cell, b: Cell)
  {
    || (a.x == b.x && (a.y - b.y == 1 || b.y - a.y == 1))
    || (a.y == b.y && (a.x - b.x == 1 || b.x - a.x == 1))
  }

  predicate InBounds(c: Cell, n: int)
  {
    0 <= c.x < n && 0 <= c.y < n
  }

  predicate AllInBounds(s: seq<Cell>, n: int)
  {
    forall i :: 0 <= i < |s| ==> InBounds(s[i], n)
  }

  predicate Distinct(s: seq<Cell>)
  {
    forall i, j :: 0 <= i < j < |s| ==> s[i] != s[j]
  }

  /** Consecutive segments touch orthogonally. */
  predicate Chained(s: seq<Cell>)
  {
    forall i :: 0 <= i < |s| - 1 ==> Adjacent(s[i], s[i + 1])
  }

  /** A snake on an n-by-n board: inside it, no cell twice, no gaps. */
  predicate WellFormedSnake(s: seq<Cell>, n: int)
  {
    AllInBounds(s, n) && Distinct(s) && Chained(s)
  }

  /** The cells a sequence covers. */
  function Cells(s: seq<Cell>): (r: set<Cell>)
  {
    set c | c in s
  }

  /** Membership in the covered cells is membership in the sequence. */
  lemma InCells(c: Cell, s: seq<Cell>)
    ensures c in Cells(s) <==> c in s
  {
  }

  lemma OppositeInvolutive(d: Direction)
    ensures Opposite(Opposite(d)) == d
  {
  }

  /** Stepping back the opposite way returns to the starting cell. */
  lemma StepBack(c: Cell, d: Direction)
    ensures Step(Step(c, d), Opposite(d)) == c
  {
  }

  /** From one cell, different directions lead to different cells. */
  lemma StepDeterminesDirection(c: Cell, d1: Direction, d2: Direction)
    requires Step(c, d1) == Step(c, d2)
    ensures d1 == d2
  {
    match d1
    case Up =>
    case Down =>
    case Left =>
    case Right =>
  }

  /**
   * When the second segment lies one step behind the head in the committed
   * direction, a pending direction that is not the reverse of it never
   * steers the head into that segment.
   */
  lemma NeverIntoNeck(s: seq<Cell>, committed: Direction, pending: Direction)
    requires |s| >= 2 && s[1] == Step(s[0], Opposite(committed))
    requires pending != Opposite(committed)
    ensures Step(s[0], pending) != s[1]
  {
    if Step(s[0], pending) == s[1] {
      StepDeterminesDirection(s[0], pending, Opposite(committed));
    }
  }

  /** Adding a fresh adjacent in-bounds head to a well-formed snake keeps it well-formed. */
  lemma GrowKeepsShape(s: seq<Cell>, head: Cell, n: int)
    requires WellFormedSnake(s, n) && |s| >= 1
    requires InBounds(head, n) && head !in s && Adjacent(head, s[0])
    ensures WellFormedSnake([head] + s, n)
  {
    var t := [head] + s;
    forall i, j | 0 <= i < j < |t| ensures t[i] != t[j] {
      if i == 0 {
        assert t[j] == s[j - 1];
      } else {
        assert t[i] == s[i - 1] && t[j] == s[j - 1];
      }
    }
    forall i | 0 <= i < |t| - 1 ensures Adjacent(t[i], t[i + 1]) {
      if i > 0 {
        assert t[i] == s[i - 1] && t[i + 1] == s[i];
      }
    }
  }

  /** Dropping the last segment keeps a snake well-formed. */
  lemma DropLastKeepsShape(s: seq<Cell>, n: int)
    requires WellFormedSnake(s, n) && |s| >= 1
    ensures WellFormedSnake(s[..|s| - 1], n)
  {
    var t := s[..|s| - 1];
    forall i | 0 <= i < |t| - 1 ensures Adjacent(t[i], t[i + 1]) {
      assert t[i] == s[i] && t[i + 1] == s[i + 1];
    }
  }

  /** A move of a well-formed snake (new head in front, tail dropped) keeps it well-formed. */
  lemma SlideKeepsShape(s: seq<Cell>, head: Cell, n: int)
    requires WellFormedSnake(s, n) && |s| >= 1
    requires InBounds(head, n) && head !in s && Adjacent(head, s[0])
    ensures WellFormedSnake([head] + s[..|s| - 1], n)
  {
    GrowKeepsShape(s, head, n);
    var t := [head] + s;
    DropLastKeepsShape(t, n);
    assert t[..|t| - 1] == [head] + s[..|s| - 1];
  }
}
