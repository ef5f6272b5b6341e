/**
 * The rules of the territory game on grid values: claiming a free cell, the
 * human's legality test, the automated players' candidate list and move, the
 * automated round, and the winner.
 */
module Rules {
  import opened Board

  // ---------------------------------------------------------------------
  // Claiming

  /** Claiming `c` for `o`: a free cell takes the colour of `o`, an occupied
      cell is left as it is. */
  function Claim(g: Grid, o: Owner, c: Cell): (r: Grid)
    requires WellFormed(g) && InBounds(c)
    ensures WellFormed(r)
  {
    if At(g, c) == None then Put(g, c, o) else g
  }

  /** Every cell that is held in `g` is held by the same owner in `h`. */
  ghost predicate Extends(g: Grid, h: Grid)
    requires WellFormed(g) && WellFormed(h)
  {
    forall c {:trigger At(h, c)} :: InBounds(c) && At(g, c) != None ==> At(h, c) == At(g, c)
  }

  /** A claim of a free cell colours exactly that cell, adds one to the
      claimant's count and to no other; a claim of an occupied cell changes
      nothing. Either way no held cell is freed or recoloured. */
  lemma ClaimEffect(g: Grid, o: Owner, c: Cell)
    requires WellFormed(g) && InBounds(c)
    ensures Extends(g, Claim(g, o, c))
    ensures At(g, c) == None ==>
      At(Claim(g, o, c), c) == Some(o) &&
      (forall d {:trigger At(Claim(g, o, c), d)} :: InBounds(d) && d != c ==> At(Claim(g, o, c), d) == At(g, d)) &&
      Count(Claim(g, o, c), o) == Count(g, o) + 1 &&
      (forall p :: p != o ==> Count(Claim(g, o, c), p) == Count(g, p)) &&
      |Occupied(Claim(g, o, c))| == |Occupied(g)| + 1
    ensures At(g, c) != None ==> Claim(g, o, c) == g
  {
    if At(g, c) == None {
      PutCounts(g, c, o);
    }
  }

  // ---------------------------------------------------------------------
  // The human's move

  /** Some neighbour of `c` holds the colour of `o`. */
  predicate Touches(g: Grid, o: Owner, c: Cell)
    requires WellFormed(g)
  {
    exists n {:trigger n in Neighbours(c)} :: n in Neighbours(c) && At(g, n) == Some(o)
  }

  /** A move of `o` onto `c` is accepted: the cell is free and borders a cell of `o`. */
  predicate Legal(g: Grid, o: Owner, c: Cell)
    requires WellFormed(g) && InBounds(c)
  {
    At(g, c) == None && Touches(g, o, c)
  }

  /** The human's rule in geometric terms: the target is free and some
      orthogonally adjacent cell inside the grid holds the colour of `o`. */
  lemma LegalMeansAdjacent(g: Grid, o: Owner, c: Cell)
    requires WellFormed(g) && InBounds(c)
    ensures Legal(g, o, c) <==>
      At(g, c) == None && exists m {:trigger At(g, m)} :: InBounds(m) && Orthogonal(c, m) && At(g, m) == Some(o)
  {
    if Legal(g, o, c) {
      var m :| m in Neighbours(c) && At(g, m) == Some(o);
      NeighboursAreOrthogonal(c, m);
    }
    if At(g, c) == None && exists m {:trigger At(g, m)} :: InBounds(m) && Orthogonal(c, m) && At(g, m) == Some(o) {
      var m :| InBounds(m) && Orthogonal(c, m) && At(g, m) == Some(o);
      NeighboursAreOrthogonal(c, m);
    }
  }

  // ---------------------------------------------------------------------
  // The automated players' candidate list

  /** The free cells of `ns`, in order. */
  function FreeOf(g: Grid, ns: seq<Cell>): (r: seq<Cell>)
    requires WellFormed(g) && forall k :: 0 <= k < |ns| ==> InBounds(ns[k])
    decreases |ns|
  {
    if ns == [] then []
    else
      var n := ns[|ns| - 1];
      FreeOf(g, ns[..|ns| - 1]) + (if At(g, n) == None then [n] else [])
  }

  /** The free in-bounds cells among `p` shifted by each offset of `ds`, in
      the order of `ds`. */
  function FreeAround(g: Grid, p: Cell, ds: seq<(int, int)>): (r: seq<Cell>)
    requires WellFormed(g)
    decreases |ds|, g
  {
    if ds == [] then []
    else
      var n := Step(p, ds[|ds| - 1]);
      FreeAround(g, p, ds[..|ds| - 1]) + (if InBounds(n) && At(g, n) == None then [n] else [])
  }

  /** What one cell contributes to the list: its free neighbours, in
      neighbour order, if it holds the colour of `o`. */
  function MovesFrom(g: Grid, o: Owner, p: Cell): (r: seq<Cell>)
    requires WellFormed(g) && InBounds(p)
  {
    if At(g, p) == Some(o) then FreeAround(g, p, Directions) else []
  }

  /** The contributions of cells (x, 0) .. (x, k - 1), in that order. */
  function RowMoves(g: Grid, o: Owner, x: int, k: int): (r: seq<Cell>)
    requires WellFormed(g) && 0 <= x < GridSize && 0 <= k <= GridSize
    decreases k, g
  {
    if k == 0 then [] else RowMoves(g, o, x, k - 1) + MovesFrom(g, o, (x, k - 1))
  }

  /** The contributions of rows 0 .. m - 1, in that order. */
  function MovesBefore(g: Grid, o: Owner, m: int): (r: seq<Cell>)
    requires WellFormed(g) && 0 <= m <= GridSize
    decreases m, g
  {
    if m == 0 then [] else MovesBefore(g, o, m - 1) + RowMoves(g, o, m - 1, |g|)
  }

  /** The list the automated player `o` picks from, duplicates included: for
      every cell of `o` in row-major order, its free neighbours in neighbour order. */
  function Candidates(g: Grid, o: Owner): (r: seq<Cell>)
    requires WellFormed(g)
  {
    MovesBefore(g, o, |g|)
  }

  /** `FreeOf` keeps exactly the free cells of its input. */
  lemma {:induction false} FreeOfMembers(g: Grid, ns: seq<Cell>, n: Cell)
    requires WellFormed(g) && forall k :: 0 <= k < |ns| ==> InBounds(ns[k])
    ensures n in FreeOf(g, ns) <==> n in ns && At(g, n) == None
    decreases |ns|
  {
    if ns != [] {
      var front := ns[..|ns| - 1];
      FreeOfMembers(g, front, n);
      assert ns == front + [ns[|ns| - 1]];
    }
  }

  /** Filtering the in-bounds shifted cells for free ones is the same as
      filtering the neighbour list the neighbour query returns. */
  lemma {:induction false} FreeAroundIsFreeOf(g: Grid, p: Cell, ds: seq<(int, int)>)
    requires WellFormed(g)
    ensures FreeAround(g, p, ds) == FreeOf(g, Shifted(p, ds))
    decreases |ds|
  {
    if ds != [] {
      var front, n := ds[..|ds| - 1], Step(p, ds[|ds| - 1]);
      FreeAroundIsFreeOf(g, p, front);
      var s := Shifted(p, front);
      if InBounds(n) {
        assert Shifted(p, ds) == s + [n];
        assert (s + [n])[..|s|] == s;
        assert FreeOf(g, s + [n]) == FreeOf(g, s) + (if At(g, n) == None then [n] else []);
      } else {
        assert Shifted(p, ds) == s;
      }
    }
  }

  /** The row scan's step: cell (x, y) adds its free neighbours, in the order
      the neighbour query lists them, when it holds the colour of `o`. */
  lemma RowMovesStep(g: Grid, o: Owner, x: int, y: int)
    requires WellFormed(g) && 0 <= x < GridSize && 0 <= y < GridSize
    ensures RowMoves(g, o, x, y + 1) ==
      RowMoves(g, o, x, y) + (if At(g, (x, y)) == Some(o) then FreeOf(g, Neighbours((x, y))) else [])
  {
    FreeAroundIsFreeOf(g, (x, y), Directions);
  }

  /** A cell contributes its free neighbours when it holds the colour of `o`,
      and nothing otherwise. */
  lemma MovesFromMembers(g: Grid, o: Owner, p: Cell, n: Cell)
    requires WellFormed(g) && InBounds(p)
    ensures n in MovesFrom(g, o, p) <==> At(g, p) == Some(o) && n in Neighbours(p) && At(g, n) == None
  {
    if At(g, p) == Some(o) {
      FreeAroundIsFreeOf(g, p, Directions);
      FreeOfMembers(g, Neighbours(p), n);
    }
  }

  /** Each cell that a cell of `o` contributes is a legal move for `o`. */
  lemma MovesFromAreLegal(g: Grid, o: Owner, p: Cell, n: Cell)
    requires WellFormed(g) && InBounds(p) && n in MovesFrom(g, o, p)
    ensures InBounds(n) && Legal(g, o, n)
  {
    MovesFromMembers(g, o, p, n);
    NeighboursAreOrthogonal(p, n);
    NeighboursAreOrthogonal(n, p);
    assert p in Neighbours(n);
  }

  lemma {:induction false} RowMovesAreLegal(g: Grid, o: Owner, x: int, k: int, n: Cell)
    requires WellFormed(g) && 0 <= x < GridSize && 0 <= k <= GridSize
    requires n in RowMoves(g, o, x, k)
    ensures InBounds(n) && Legal(g, o, n)
    decreases k
  {
    if n in RowMoves(g, o, x, k - 1) {
      RowMovesAreLegal(g, o, x, k - 1, n);
    } else {
      MovesFromAreLegal(g, o, (x, k - 1), n);
    }
  }

  lemma {:induction false} MovesBeforeAreLegal(g: Grid, o: Owner, m: int, n: Cell)
    requires WellFormed(g) && 0 <= m <= GridSize
    requires n in MovesBefore(g, o, m)
    ensures InBounds(n) && Legal(g, o, n)
    decreases m
  {
    if n in MovesBefore(g, o, m - 1) {
      MovesBeforeAreLegal(g, o, m - 1, n);
    } else {
      RowMovesAreLegal(g, o, m - 1, |g|, n);
    }
  }

  /** Whatever cell (x, j) contributes is in the row's contributions up to k > j. */
  lemma {:induction false} RowMovesHas(g: Grid, o: Owner, x: int, k: int, j: int, n: Cell)
    requires WellFormed(g) && 0 <= x < GridSize && 0 <= j < k <= GridSize
    requires n in MovesFrom(g, o, (x, j))
    ensures n in RowMoves(g, o, x, k)
    decreases k
  {
    var last := MovesFrom(g, o, (x, k - 1));
    assert RowMoves(g, o, x, k) == RowMoves(g, o, x, k - 1) + last;
    if j < k - 1 {
      RowMovesHas(g, o, x, k - 1, j, n);
    } else {
      assert last == MovesFrom(g, o, (x, j));
    }
  }

  /** Whatever cell p contributes is in the contributions of the rows up to m > p.0. */
  lemma {:induction false} MovesBeforeHas(g: Grid, o: Owner, m: int, p: Cell, n: Cell)
    requires WellFormed(g) && InBounds(p) && p.0 < m <= GridSize
    requires n in MovesFrom(g, o, p)
    ensures n in MovesBefore(g, o, m)
    decreases m
  {
    if p.0 < m - 1 {
      MovesBeforeHas(g, o, m - 1, p, n);
    } else {
      assert (p.0, p.1) == p;
      RowMovesHas(g, o, m - 1, |g|, p.1, n);
    }
  }

  /** The candidate list holds exactly the moves a player of that colour could
      make: only free cells next to one of its cells, and every such cell. */
  lemma CandidatesAreLegal(g: Grid, o: Owner, n: Cell)
    requires WellFormed(g)
    ensures n in Candidates(g, o) <==> InBounds(n) && Legal(g, o, n)
  {
    if n in Candidates(g, o) {
      MovesBeforeAreLegal(g, o, |g|, n);
    }
    if InBounds(n) && Legal(g, o, n) {
      var p :| p in Neighbours(n) && At(g, p) == Some(o);
      NeighboursAreOrthogonal(n, p);
      NeighboursAreOrthogonal(p, n);
      MovesFromMembers(g, o, p, n);
      MovesBeforeHas(g, o, |g|, p, n);
    }
  }

  // ---------------------------------------------------------------------
  // The automated move and round

  /** One automated turn: with no candidate the grid is unchanged, otherwise
      the candidate at position `draw` (modulo the list length) is claimed. */
  function AiMove(g: Grid, o: Owner, draw: nat): (r: Grid)
    requires WellFormed(g)
    ensures WellFormed(r)
  {
    var moves := Candidates(g, o);
    if |moves| == 0 then g
    else
      CandidatesAreLegal(g, o, moves[draw % |moves|]);
      Claim(g, o, moves[draw % |moves|])
  }

  /** An automated player has no candidate exactly when it has no legal move. */
  lemma NoCandidateNoMove(g: Grid, o: Owner)
    requires WellFormed(g)
    ensures |Candidates(g, o)| == 0 <==> forall c {:trigger Legal(g, o, c)} :: InBounds(c) ==> !Legal(g, o, c)
  {
    var moves := Candidates(g, o);
    if |moves| == 0 {
      forall c | InBounds(c)
        ensures !Legal(g, o, c)
      {
        CandidatesAreLegal(g, o, c);
      }
    } else {
      CandidatesAreLegal(g, o, moves[0]);
    }
  }

  /** With no candidate the automated player passes; otherwise it colours
      exactly the listed cell at position `draw` modulo the list length, which
      was a legal move, and gains exactly one cell. */
  lemma AiMoveEffect(g: Grid, o: Owner, draw: nat)
    requires WellFormed(g)
    ensures Extends(g, AiMove(g, o, draw))
    ensures |Candidates(g, o)| == 0 ==> AiMove(g, o, draw) == g
    ensures |Candidates(g, o)| > 0 ==>
      var c := Candidates(g, o)[draw % |Candidates(g, o)|];
      InBounds(c) && Legal(g, o, c) && AiMove(g, o, draw) == Put(g, c, o) &&
      Count(AiMove(g, o, draw), o) == Count(g, o) + 1 &&
      (forall p :: p != o ==> Count(AiMove(g, o, draw), p) == Count(g, p))
  {
    var moves := Candidates(g, o);
    if |moves| > 0 {
      var c := moves[draw % |moves|];
      CandidatesAreLegal(g, o, c);
      ClaimEffect(g, o, c);
    }
  }

  /** Every listed cell is the one claimed for some draw. */
  lemma AnyCandidateCanBeChosen(g: Grid, o: Owner, k: nat)
    requires WellFormed(g) && k < |Candidates(g, o)|
    ensures InBounds(Candidates(g, o)[k]) && AiMove(g, o, k) == Put(g, Candidates(g, o)[k], o)
  {
    var moves := Candidates(g, o);
    assert k % |moves| == k;
    CandidatesAreLegal(g, o, moves[k]);
  }

  /** The automated players' round: AI1, then AI2, then AI3, each on the grid
      its predecessor left. */
  function AiRound(g: Grid, d1: nat, d2: nat, d3: nat): (r: Grid)
    requires WellFormed(g)
    ensures WellFormed(r)
  {
    AiMove(AiMove(AiMove(g, AI1, d1), AI2, d2), AI3, d3)
  }

  /** A round frees and recolours nothing, takes no cell from the human, and
      occupies between zero and three more cells. */
  lemma AiRoundEffect(g: Grid, d1: nat, d2: nat, d3: nat)
    requires WellFormed(g)
    ensures Extends(g, AiRound(g, d1, d2, d3))
    ensures Count(AiRound(g, d1, d2, d3), Player) == Count(g, Player)
    ensures |Occupied(g)| <= |Occupied(AiRound(g, d1, d2, d3))| <= |Occupied(g)| + 3
  {
    var g1 := AiMove(g, AI1, d1);
    var g2 := AiMove(g1, AI2, d2);
    AiStep(g, AI1, d1);
    AiStep(g1, AI2, d2);
    AiStep(g2, AI3, d3);
  }

  lemma AiStep(g: Grid, o: Owner, draw: nat)
    requires WellFormed(g) && o != Player
    ensures Extends(g, AiMove(g, o, draw))
    ensures Count(AiMove(g, o, draw), Player) == Count(g, Player)
    ensures |Occupied(g)| <= |Occupied(AiMove(g, o, draw))| <= |Occupied(g)| + 1
  {
    AiMoveEffect(g, o, draw);
    var moves := Candidates(g, o);
    if |moves| > 0 {
      CandidatesAreLegal(g, o, moves[draw % |moves|]);
      ClaimEffect(g, o, moves[draw % |moves|]);
    }
  }

  /** Once the grid is full nothing more can be claimed: every human move is
      rejected and every automated player passes. */
  lemma FullGridIsFinal(g: Grid, o: Owner, draw: nat)
    requires WellFormed(g) && IsFull(g)
    ensures forall c {:trigger Legal(g, o, c)} :: InBounds(c) ==> !Legal(g, o, c)
    ensures Candidates(g, o) == [] && AiMove(g, o, draw) == g
  {
    if Candidates(g, o) != [] {
      CandidatesAreLegal(g, o, Candidates(g, o)[0]);
    }
  }

  // ---------------------------------------------------------------------
  // The winner

  /** The owners in the iteration order of the players table. */
  const Order: seq<Owner> := [Player, AI1, AI2, AI3]

  function Rank(o: Owner): nat {
    match o
    case Player => 0
    case AI1 => 1
    case AI2 => 2
    case AI3 => 3
  }

  /** The position `max` settles on: a largest element, the first one among equals. */
  function MaxIndex(ts: seq<int>): (i: nat)
    requires |ts| > 0
    ensures i < |ts|
    ensures forall k :: 0 <= k < |ts| ==> ts[k] <= ts[i]
    ensures forall k :: 0 <= k < i ==> ts[k] < ts[i]
    decreases |ts|
  {
    if |ts| == 1 then 0
    else
      var best := MaxIndex(ts[..|ts| - 1]);
      if ts[|ts| - 1] > ts[best] then |ts| - 1 else best
  }

  function Scores(t: map<Owner, int>): (s: seq<int>)
    requires forall o :: o in t
    ensures |s| == |Order| && forall o :: s[Rank(o)] == t[o]
  {
    [t[Player], t[AI1], t[AI2], t[AI3]]
  }

  /** The owner with the most territory; among equals, the first in the order
      Player, AI1, AI2, AI3. */
  function Winner(t: map<Owner, int>): (w: Owner)
    requires forall o :: o in t
    ensures forall o :: t[o] <= t[w]
    ensures forall o :: Rank(o) < Rank(w) ==> t[o] < t[w]
  {
    var i := MaxIndex(Scores(t));
    assert forall o :: Order[Rank(o)] == o;
    assert Order[i] == Order[Rank(Order[i])];
    Order[i]
  }

  /** These two properties single the winner out: no other owner has them. */
  lemma WinnerIsUnique(t: map<Owner, int>, w: Owner)
    requires forall o :: o in t
    requires forall o :: t[o] <= t[w]
    requires forall o :: Rank(o) < Rank(w) ==> t[o] < t[w]
    ensures w == Winner(t)
  {
  }
}
