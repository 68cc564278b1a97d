/** `Maze`: a walker on a grid whose map gives, for each cell, the moves allowed from it as
    `[left, right, up, down]`.  A move happens only when the current cell allows it; otherwise
    it fails and the walker stays put.  The C# exceptions are the failing outcomes here: the
    "Can't go that way!" error, and the lookup errors of a cell missing from the map or an
    entry shorter than the direction's index. */
module Mazes {
  import opened Text

  type Cell = (int, int)

  datatype Direction = Left | Right | Up | Down

  datatype MoveOutcome = Moved | CantGoThatWay | KeyNotFound | IndexOutOfRange

  /** The index of a direction in a cell's entry. */
  function Slot(d: Direction): nat {
    match d
    case Left => 0
    case Right => 1
    case Up => 2
    case Down => 3
  }

  /** Left and up decrease a coordinate, right and down increase one. */
  function Neighbour(p: Cell, d: Direction): Cell {
    match d
    case Left => (p.0 - 1, p.1)
    case Right => (p.0 + 1, p.1)
    case Up => (p.0, p.1 - 1)
    case Down => (p.0, p.1 + 1)
  }

  function Opposite(d: Direction): Direction {
    match d
    case Left => Right
    case Right => Left
    case Up => Down
    case Down => Up
  }

  function Abs(n: int): nat {
    if n < 0 then -n else n
  }

  /** Whether the map allows a move from `p` in direction `d` (the array lookup with its errors). */
  function Check(mazeMap: map<Cell, seq<bool>>, p: Cell, d: Direction): (r: MoveOutcome)
    ensures r == Moved <==> p in mazeMap && Slot(d) < |mazeMap[p]| && mazeMap[p][Slot(d)]
    ensures r == KeyNotFound <==> p !in mazeMap
  {
    if p !in mazeMap then KeyNotFound
    else if Slot(d) >= |mazeMap[p]| then IndexOutOfRange
    else if mazeMap[p][Slot(d)] then Moved
    else CantGoThatWay
  }

  /** The outcome of a move and the position after it. */
  function Step(mazeMap: map<Cell, seq<bool>>, p: Cell, d: Direction): (r: (MoveOutcome, Cell))
    ensures r.0 == Moved ==> Abs(r.1.0 - p.0) + Abs(r.1.1 - p.1) == 1
    ensures r.0 != Moved ==> r.1 == p
  {
    var outcome := Check(mazeMap, p, d);
    (outcome, if outcome == Moved then Neighbour(p, d) else p)
  }

  /** A successful move followed by a successful move the opposite way returns to the start. */
  lemma StepThereAndBack(mazeMap: map<Cell, seq<bool>>, p: Cell, d: Direction)
    requires Step(mazeMap, p, d).0 == Moved
    requires Step(mazeMap, Step(mazeMap, p, d).1, Opposite(d)).0 == Moved
    ensures Step(mazeMap, Step(mazeMap, p, d).1, Opposite(d)).1 == p
  {
  }

  /** The status text of the walker at `(x, y)`. */
  function StatusText(x: int, y: int): string {
    "Current location (x=" + IntToString(x) + ", y=" + IntToString(y) + ")"
  }

  /** The status text names the position: two positions have the same text exactly when they are
      the same position. */
  lemma StatusTextInjective(x: int, y: int, x2: int, y2: int)
    ensures StatusText(x, y) == StatusText(x2, y2) <==> x == x2 && y == y2
  {
    if StatusText(x, y) == StatusText(x2, y2) {
      var b, b2 := " y=" + IntToString(y), " y=" + IntToString(y2);
      StatusTextInner(x, y);
      StatusTextInner(x2, y2);
      NoCommaAfterIntText(" y=", y);
      NoCommaAfterIntText(" y=", y2);
      LastSeparator(IntToString(x), b, IntToString(x2), b2, ',');
      assert IntToString(y) == b[3..] && IntToString(y2) == b2[3..];
      IntToStringInjective(x, x2);
      IntToStringInjective(y, y2);
    }
  }

  /** Between its fixed opening and the closing parenthesis, the status text is the x text, a
      comma, and " y=" with the y text. */
  lemma StatusTextInner(x: int, y: int)
    ensures |StatusText(x, y)| >= 21
    ensures StatusText(x, y)[20..|StatusText(x, y)| - 1] == IntToString(x) + [','] + (" y=" + IntToString(y))
  {
    var front := "Current location (x=";
    var inner := IntToString(x) + [','] + (" y=" + IntToString(y));
    assert StatusText(x, y) == front + inner + ")";
  }

  class Maze {
    const mazeMap: map<Cell, seq<bool>>
    var x: int
    var y: int

    /** A new walker starts at (1, 1). */
    constructor (mazeMap: map<Cell, seq<bool>>)
      ensures this.mazeMap == mazeMap
      ensures (x, y) == (1, 1)
    {
      this.mazeMap := mazeMap;
      x, y := 1, 1;
    }

    method MoveLeft() returns (r: MoveOutcome)
      modifies this`x
      ensures (r, (x, y)) == Step(mazeMap, (old(x), y), Left)
    {
      r := Check(mazeMap, (x, y), Left);
      if r == Moved {
        x := x - 1;
      }
    }

    method MoveRight() returns (r: MoveOutcome)
      modifies this`x
      ensures (r, (x, y)) == Step(mazeMap, (old(x), y), Right)
    {
      r := Check(mazeMap, (x, y), Right);
      if r == Moved {
        x := x + 1;
      }
    }

    method MoveUp() returns (r: MoveOutcome)
      modifies this`y
      ensures (r, (x, y)) == Step(mazeMap, (x, old(y)), Up)
    {
      r := Check(mazeMap, (x, y), Up);
      if r == Moved {
        y := y - 1;
      }
    }

    method MoveDown() returns (r: MoveOutcome)
      modifies this`y
      ensures (r, (x, y)) == Step(mazeMap, (x, old(y)), Down)
    {
      r := Check(mazeMap, (x, y), Down);
      if r == Moved {
        y := y + 1;
      }
    }

    function GetStatus(): string
      reads this
    {
      StatusText(x, y)
    }
  }
}
