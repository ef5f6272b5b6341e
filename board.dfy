/**
 * The board of the territory game: a square grid whose cells are either free
 * or held by one of four owners, the orthogonal-neighbour query, the seeding
 * of the four corners, and the cell counts that the territory counters mirror.
 *
 * A grid is indexed `g[x][y]`, as the source's list of lists is.
 */
module Board {

  /** GRID_SIZE: the number of cells along each side of the grid. */
  const GridSize: int := 10
  /** CELL_SIZE: the side of one cell, in pixels. */
  const CellSize: int := 40

  datatype Option<T> = None | Some(value: T)

  /** The four participants, in the insertion order of the players table.
      Each stands for its own colour; the four colours are distinct. */
  datatype Owner = Player | AI1 | AI2 | AI3

  type Cell = (int, int)
  type Grid = seq<seq<Option<Owner>>>

  predicate InBounds(c: Cell) {
    0 <= c.0 < GridSize && 0 <= c.1 < GridSize
  }

  predicate WellFormed(g: Grid) {
    |g| == GridSize && forall i :: 0 <= i < GridSize ==> |g[i]| == GridSize
  }

  function At(g: Grid, c: Cell): Option<Owner>
    requires WellFormed(g) && InBounds(c)
  {
    g[c.0][c.1]
  }

  /** The grid with cell `c` set to the colour of `o`; no other cell changes. */
  function Put(g: Grid, c: Cell, o: Owner): (r: Grid)
    requires WellFormed(g) && InBounds(c)
    ensures WellFormed(r) && At(r, c) == Some(o)
    ensures forall d {:trigger At(r, d)} :: InBounds(d) && d != c ==> At(r, d) == At(g, d)
  {
    g[c.0 := g[c.0][c.1 := Some(o)]]
  }

  // ---------------------------------------------------------------------
  // Neighbours

  /** The offsets tried by the neighbour query: up, down, left, right. */
  const Directions: seq<(int, int)> := [(-1, 0), (1, 0), (0, -1), (0, 1)]

  function Step(c: Cell, d: (int, int)): Cell {
    (c.0 + d.0, c.1 + d.1)
  }

  /** The in-bounds cells among `c` shifted by each offset of `ds`, in the order of `ds`. */
  function Shifted(c: Cell, ds: seq<(int, int)>): (r: seq<Cell>)
    ensures |r| <= |ds|
    ensures forall k :: 0 <= k < |r| ==> InBounds(r[k])
    decreases |ds|, c
  {
    if ds == [] then []
    else
      var n := Step(c, ds[|ds| - 1]);
      Shifted(c, ds[..|ds| - 1]) + (if InBounds(n) then [n] else [])
  }

  /** The neighbour list that the source's neighbour query builds. */
  function Neighbours(c: Cell): (r: seq<Cell>)
    ensures |r| <= 4
    ensures forall k :: 0 <= k < |r| ==> InBounds(r[k])
  {
    Shifted(c, Directions)
  }

  function Abs(k: int): nat { if k < 0 then -k else k }

  /** `n` differs from `c` by exactly one in exactly one coordinate. */
  predicate Orthogonal(c: Cell, n: Cell) {
    (n.0 == c.0 && Abs(n.1 - c.1) == 1) || (n.1 == c.1 && Abs(n.0 - c.0) == 1)
  }

  /** The neighbour query, as the source runs it: a loop over the four offsets
      that appends each in-bounds neighbour. */
  method AdjacentCells(x: int, y: int) returns (neighbors: seq<Cell>)
    ensures neighbors == Neighbours((x, y))
  {
    neighbors := [];
    for i := 0 to |Directions|
      invariant neighbors == Shifted((x, y), Directions[..i])
    {
      var (dx, dy) := Directions[i];
      var nx, ny := x + dx, y + dy;
      if 0 <= nx < GridSize && 0 <= ny < GridSize {
        neighbors := neighbors + [(nx, ny)];
      }
      assert Directions[..i + 1][..i] == Directions[..i];
    }
    assert Directions[..|Directions|] == Directions;
  }

  /** A cell is listed as a neighbour of `c` exactly when it is inside the grid
      and orthogonally adjacent to `c`: no diagonal and no out-of-range cell. */
  lemma NeighboursAreOrthogonal(c: Cell, n: Cell)
    ensures n in Neighbours(c) <==> InBounds(n) && Orthogonal(c, n)
  {
    NeighboursInOrder(c);
    var up, down, left, right := (c.0 - 1, c.1), (c.0 + 1, c.1), (c.0, c.1 - 1), (c.0, c.1 + 1);
    assert n in Neighbours(c) <==> n in Keep(up) || n in Keep(down) || n in Keep(left) || n in Keep(right);
    if InBounds(n) && Orthogonal(c, n) {
      assert n == up || n == down || n == left || n == right;
    }
  }

  /** The neighbours come in the fixed order up, down, left, right, each one
      present exactly when it lies inside the grid. */
  lemma NeighboursInOrder(c: Cell)
    ensures Neighbours(c) ==
      Keep((c.0 - 1, c.1)) + Keep((c.0 + 1, c.1)) + Keep((c.0, c.1 - 1)) + Keep((c.0, c.1 + 1))
  {
    var up, down, left, right := (-1, 0), (1, 0), (0, -1), (0, 1);
    var s1 := [up];
    var s2 := s1 + [down];
    var s3 := s2 + [left];
    assert Directions == s3 + [right];
    assert [] + [up] == s1;
    assert Step(c, up) == (c.0 - 1, c.1) && Step(c, down) == (c.0 + 1, c.1);
    assert Step(c, left) == (c.0, c.1 - 1) && Step(c, right) == (c.0, c.1 + 1);
    ShiftedSnoc(c, [], up);
    ShiftedSnoc(c, s1, down);
    ShiftedSnoc(c, s2, left);
    ShiftedSnoc(c, s3, right);
  }

  /** Appending an offset appends at most the one cell it leads to. */
  lemma ShiftedSnoc(c: Cell, ds: seq<(int, int)>, d: (int, int))
    ensures Shifted(c, ds + [d]) == Shifted(c, ds) + Keep(Step(c, d))
  {
  }

  function Keep(n: Cell): seq<Cell> {
    if InBounds(n) then [n] else []
  }

  // ---------------------------------------------------------------------
  // Counting

  /** The cells holding the colour of `o`. */
  ghost function CellsOf(g: Grid, o: Owner): (r: set<Cell>)
    requires WellFormed(g)
    ensures forall c {:trigger c in r} :: c in r <==> InBounds(c) && At(g, c) == Some(o)
  {
    set i, j {:trigger g[i][j]} | 0 <= i < GridSize && 0 <= j < GridSize && g[i][j] == Some(o) :: (i, j)
  }

  /** The number of cells holding the colour of `o`. */
  ghost function Count(g: Grid, o: Owner): nat
    requires WellFormed(g)
  {
    |CellsOf(g, o)|
  }

  /** The cells that are not free. */
  ghost function Occupied(g: Grid): (r: set<Cell>)
    requires WellFormed(g)
    ensures forall c {:trigger c in r} :: c in r <==> InBounds(c) && At(g, c) != None
  {
    set i, j {:trigger g[i][j]} | 0 <= i < GridSize && 0 <= j < GridSize && g[i][j] != None :: (i, j)
  }

  /** No cell is free: exactly when all GridSize² cells are occupied. */
  predicate IsFull(g: Grid)
    requires WellFormed(g)
    ensures IsFull(g) <==> |Occupied(g)| == GridSize * GridSize
  {
    FullMeansAllOccupied(g);
    NoneFree(g)
  }

  predicate NoneFree(g: Grid)
    requires WellFormed(g)
  {
    forall i, j :: 0 <= i < GridSize && 0 <= j < GridSize ==> g[i][j] != None
  }

  /** Putting a colour into a free cell adds one cell to that owner and to the
      occupied cells, and leaves every other owner's cells as they were. */
  lemma PutCounts(g: Grid, c: Cell, o: Owner)
    requires WellFormed(g) && InBounds(c) && At(g, c) == None
    ensures Count(Put(g, c, o), o) == Count(g, o) + 1
    ensures forall p :: p != o ==> Count(Put(g, c, o), p) == Count(g, p)
    ensures |Occupied(Put(g, c, o))| == |Occupied(g)| + 1
  {
    var h := Put(g, c, o);
    assert CellsOf(h, o) == CellsOf(g, o) + {c};
    forall p | p != o
      ensures Count(h, p) == Count(g, p)
    {
      assert CellsOf(h, p) == CellsOf(g, p);
    }
    assert Occupied(h) == Occupied(g) + {c};
  }

  /** Every owner has a counter, and it equals the number of its cells. */
  ghost predicate Counted(g: Grid, t: map<Owner, int>)
    requires WellFormed(g)
  {
    forall o :: o in t && t[o] == Count(g, o)
  }

  /** Adding one to the claimant's counter when a free cell takes its colour
      keeps every counter equal to its owner's cell count. */
  lemma PutKeepsCounted(g: Grid, t: map<Owner, int>, c: Cell, o: Owner)
    requires WellFormed(g) && InBounds(c) && At(g, c) == None && Counted(g, t)
    ensures Counted(Put(g, c, o), t[o := t[o] + 1])
  {
    PutCounts(g, c, o);
    var h, u := Put(g, c, o), t[o := t[o] + 1];
    forall p
      ensures p in u && u[p] == Count(h, p)
    {
      assert p in t && t[p] == Count(g, p);
    }
  }

  /** The four owners' counts add up to the number of occupied cells. */
  lemma CountsCoverOccupied(g: Grid)
    requires WellFormed(g)
    ensures Count(g, Player) + Count(g, AI1) + Count(g, AI2) + Count(g, AI3) == |Occupied(g)|
  {
    var a, b, c, d := CellsOf(g, Player), CellsOf(g, AI1), CellsOf(g, AI2), CellsOf(g, AI3);
    forall e | e in Occupied(g)
      ensures e in a + b + c + d
    {
      match At(g, e).value
      case Player => assert e in a;
      case AI1 => assert e in b;
      case AI2 => assert e in c;
      case AI3 => assert e in d;
    }
    assert Occupied(g) == a + b + c + d;
    assert a * b == {};
    assert (a + b) * c == {};
    assert (a + b + c) * d == {};
  }

  /** The cells of the first `n` rows (a row is the cells sharing an x). */
  ghost function Rows(n: int): set<Cell> {
    set i, j | 0 <= i < n && 0 <= j < GridSize :: (i, j)
  }

  /** The first `m` cells of row `i`. */
  ghost function RowPart(i: int, m: int): set<Cell> {
    set j | 0 <= j < m :: (i, j)
  }

  lemma {:induction false} RowPartSize(i: int, m: nat)
    ensures |RowPart(i, m)| == m
  {
    if m > 0 {
      RowPartSize(i, m - 1);
      assert RowPart(i, m) == RowPart(i, m - 1) + {(i, m - 1)};
    } else {
      assert RowPart(i, m) == {};
    }
  }

  lemma {:induction false} RowsSize(n: nat)
    ensures |Rows(n)| == n * GridSize
  {
    if n > 0 {
      RowsSize(n - 1);
      RowPartSize(n - 1, GridSize);
      assert Rows(n) == Rows(n - 1) + RowPart(n - 1, GridSize);
      assert Rows(n - 1) * RowPart(n - 1, GridSize) == {};
    } else {
      assert Rows(n) == {};
    }
  }

  /** A grid has no free cell exactly when it has GridSize² occupied cells. */
  lemma FullMeansAllOccupied(g: Grid)
    requires WellFormed(g)
    ensures NoneFree(g) <==> |Occupied(g)| == GridSize * GridSize
  {
    RowsSize(GridSize);
    if NoneFree(g) {
      assert Occupied(g) == Rows(GridSize);
    } else {
      var i, j :| 0 <= i < GridSize && 0 <= j < GridSize && g[i][j] == None;
      var all := Rows(GridSize) - {(i, j)};
      assert Rows(GridSize) == all + {(i, j)};
      assert Occupied(g) <= all;
      assert all == Occupied(g) + (all - Occupied(g));
    }
  }

  // ---------------------------------------------------------------------
  // Seeding

  /** The owner seeded at a cell: the human at (0, 0), AI1 at the opposite
      corner, AI2 at (0, GridSize - 1) and AI3 at (GridSize - 1, 0). */
  function SeedOwner(c: Cell): (r: Option<Owner>)
    ensures r != None ==> (c.0 == 0 || c.0 == GridSize - 1) && (c.1 == 0 || c.1 == GridSize - 1)
  {
    if c == (0, 0) then Some(Player)
    else if c == (GridSize - 1, GridSize - 1) then Some(AI1)
    else if c == (0, GridSize - 1) then Some(AI2)
    else if c == (GridSize - 1, 0) then Some(AI3)
    else None
  }

  /** The grid at the start of a game and after a restart. */
  function Seeded(): (g: Grid)
    ensures WellFormed(g)
    ensures forall c {:trigger At(g, c)} :: InBounds(c) ==> At(g, c) == SeedOwner(c)
  {
    seq(GridSize, i => seq(GridSize, j => SeedOwner((i, j))))
  }

  /** The territory counters at the start of a game and after a restart. */
  function StartCounters(): (t: map<Owner, int>)
    ensures forall o :: o in t && t[o] == 1
  {
    var t := map[Player := 1, AI1 := 1, AI2 := 1, AI3 := 1];
    EveryOwnerListed(t);
    t
  }

  lemma EveryOwnerListed(t: map<Owner, int>)
    requires t == map[Player := 1, AI1 := 1, AI2 := 1, AI3 := 1]
    ensures forall o :: o in t && t[o] == 1
  {
    forall o
      ensures o in t && t[o] == 1
    {
      match o
      case Player =>
      case AI1 =>
      case AI2 =>
      case AI3 =>
    }
  }

  /** Each owner starts with exactly one cell, so a counter of 1 matches the grid. */
  lemma SeededCounts()
    ensures Counted(Seeded(), StartCounters())
  {
    var g := Seeded();
    forall o
      ensures o in StartCounters() && StartCounters()[o] == Count(g, o)
    {
      var corner := match o
        case Player => (0, 0)
        case AI1 => (GridSize - 1, GridSize - 1)
        case AI2 => (0, GridSize - 1)
        case AI3 => (GridSize - 1, 0);
      assert CellsOf(g, o) == {corner};
    }
  }

  // ---------------------------------------------------------------------
  // Pixels

  /** The cell under a pixel position: both coordinates floor-divided by CellSize.
      For a positive divisor Python's `//` and Dafny's `/` both round down. */
  function ToCell(pos: (int, int)): (c: Cell)
    ensures c.0 * CellSize <= pos.0 < c.0 * CellSize + CellSize
    ensures c.1 * CellSize <= pos.1 < c.1 * CellSize + CellSize
    ensures 0 <= pos.0 < GridSize * CellSize && 0 <= pos.1 < GridSize * CellSize ==> InBounds(c)
  {
    (pos.0 / CellSize, pos.1 / CellSize)
  }

  /** The caller scales a slider value to pixels and the turn divides it back:
      the cell tested is the cell selected. */
  lemma SliderRoundTrip(x: int, y: int)
    requires 0 <= x < GridSize && 0 <= y < GridSize
    ensures ToCell((x * CellSize, y * CellSize)) == (x, y)
    ensures InBounds(ToCell((x * CellSize, y * CellSize)))
  {
  }
}
