/**
 * The grid the tiles live on. Only its bounds and its adjacency are modelled:
 * cells are identified by their coordinates, row 0 is the top row, and the
 * cells are stored row by row, so cell (x, y) is at index y * width + x.
 */
module Grids {
  import opened Options

  datatype Direction = Up | Down | Left | Right

  datatype Pos = Pos(x: int, y: int)

  /** The engine's unit vector for a direction (Vector2Int.up is (0, 1)). */
  function Vector(d: Direction): (int, int)
  {
    match d
    case Up => (0, 1)
    case Down => (0, -1)
    case Left => (-1, 0)
    case Right => (1, 0)
  }

  /** The cell k steps from p in direction d (screen rows grow downwards). */
  function Ray(p: Pos, d: Direction, k: int): Pos
  {
    match d
    case Up => Pos(p.x, p.y - k)
    case Down => Pos(p.x, p.y + k)
    case Left => Pos(p.x - k, p.y)
    case Right => Pos(p.x + k, p.y)
  }

  datatype Grid = Grid(width: nat, height: nat)
  {
    function Size(): nat
    {
      width * height
    }

    predicate InBounds(p: Pos)
    {
      0 <= p.x < width && 0 <= p.y < height
    }

    /** The cell at (x, y), or none outside the bounds. */
    function GetCell(x: int, y: int): (c: Option<Pos>)
      ensures c.Some? <==> InBounds(Pos(x, y))
      ensures c.Some? ==> c.value == Pos(x, y)
    {
      if InBounds(Pos(x, y)) then Some(Pos(x, y)) else None
    }

    /** The neighbour of p one step in direction d, or none at the edge. */
    function GetAdjacentCell(p: Pos, d: Direction): (c: Option<Pos>)
      ensures c.Some? <==> InBounds(Ray(p, d, 1))
      ensures c.Some? ==> c.value == Ray(p, d, 1)
    {
      var (dx, dy) := Vector(d);
      GetCell(p.x + dx, p.y - dy)
    }

    /** How many steps p can still take in direction d before leaving the grid. */
    function EdgeDistance(p: Pos, d: Direction): int
    {
      match d
      case Up => p.y
      case Down => height - 1 - p.y
      case Left => p.x
      case Right => width - 1 - p.x
    }

    /** The position of cell p in the row-by-row cell array. */
    function Index(p: Pos): (i: nat)
      requires InBounds(p)
      ensures i < Size()
    {
      MulLeq(p.y + 1, height, width);
      p.y * width + p.x
    }

    /** The cell stored at index i. */
    function PosOf(i: nat): (p: Pos)
      requires i < Size()
      ensures InBounds(p) && Index(p) == i
    {
      DivBelow(i, width, height);
      Pos(i % width, i / width)
    }

    lemma IndexInjective(p: Pos, q: Pos)
      requires InBounds(p) && InBounds(q) && Index(p) == Index(q)
      ensures p == q
    {
      if p.y < q.y {
        MulLeq(p.y + 1, q.y, width);
      } else if q.y < p.y {
        MulLeq(q.y + 1, p.y, width);
      }
    }

    /** Distinct cells are stored at distinct indices. */
    lemma IndexApart(p: Pos)
      requires InBounds(p)
      ensures forall q :: InBounds(q) && q != p ==> Index(q) != Index(p)
    {
      forall q | InBounds(q) && Index(q) == Index(p)
        ensures q == p
      {
        IndexInjective(q, p);
      }
    }
  }

  lemma MulLeq(a: int, b: int, w: nat)
    requires a <= b
    ensures a * w <= b * w
  {
  }

  lemma DivBelow(i: nat, w: nat, h: nat)
    requires i < w * h
    ensures w > 0 && i / w < h && i == (i / w) * w + i % w && 0 <= i % w < w
  {
    if i / w >= h {
      MulLeq(h, i / w, w);
    }
  }
}
