/**
 * The running game: the grid as a two-dimensional array written in place,
 * the per-owner territory counters, and the turn flag, with the operations
 * that change them. A ghost copy `board` of the array, tied to it by
 * `Valid()`, lets every operation be stated through the rules on grid values.
 */
module Simulation {
  import opened Board
  import Rules

  class Game {
    /** The cells, indexed [x, y]. */
    var grid: array2<Option<Owner>>
    /** The territory counter of each owner. */
    var territory: map<Owner, int>
    /** Whether the human moves next; once it is false the automated players move. */
    var playerTurnActive: bool
    /** The contents of `grid` as a value. */
    ghost var board: Grid

    /** The array has the grid's dimensions and holds exactly `board`. */
    ghost predicate Mirrors()
      reads this, grid
    {
      grid.Length0 == GridSize && grid.Length1 == GridSize && WellFormed(board) &&
      forall i, j :: 0 <= i < GridSize && 0 <= j < GridSize ==> grid[i, j] == board[i][j]
    }

    /** The array mirrors `board`, and every counter equals the number of
        cells holding its owner's colour. */
    ghost predicate Valid()
      reads this, grid
    {
      Mirrors() && Counted(board, territory)
    }

    /** A fresh grid with the four corners seeded and every other cell free. */
    static method NewGrid() returns (a: array2<Option<Owner>>)
      ensures fresh(a) && a.Length0 == GridSize && a.Length1 == GridSize
      ensures forall i, j :: 0 <= i < GridSize && 0 <= j < GridSize ==> a[i, j] == Seeded()[i][j]
    {
      a := new Option<Owner>[GridSize, GridSize]((i, j) => None);
      a[0, 0] := Some(Player);
      a[GridSize - 1, GridSize - 1] := Some(AI1);
      a[0, GridSize - 1] := Some(AI2);
      a[GridSize - 1, 0] := Some(AI3);
      forall i, j | 0 <= i < GridSize && 0 <= j < GridSize
        ensures a[i, j] == Seeded()[i][j]
      {
        assert Seeded()[i][j] == At(Seeded(), (i, j)) == SeedOwner((i, j));
      }
    }

    /** The game as it starts: the seeded grid, every counter at 1, the human to move. */
    constructor ()
      ensures Valid() && fresh(grid)
      ensures board == Seeded()
      ensures territory == StartCounters()
      ensures playerTurnActive
    {
      var a := NewGrid();
      grid := a;
      board := Seeded();
      territory := StartCounters();
      playerTurnActive := true;
      new;
      SeededCounts();
    }

    /** The restart button: a new seeded grid, every counter back to 1, the human to move. */
    method Restart()
      modifies this
      ensures Valid() && fresh(grid)
      ensures board == Seeded()
      ensures territory == StartCounters()
      ensures playerTurnActive
    {
      grid := NewGrid();
      board := Seeded();
      territory := StartCounters();
      playerTurnActive := true;
      SeededCounts();
    }

    /** Claims cell (x, y) for `who`: a free cell takes its colour and its
        counter goes up by one, and the answer is true; an occupied cell is
        left alone, nothing changes, and the answer is false. */
    method Claim(who: Owner, x: int, y: int) returns (ok: bool)
      requires Valid() && InBounds((x, y))
      modifies this, grid
      ensures Valid() && grid == old(grid) && playerTurnActive == old(playerTurnActive)
      ensures ok <==> At(old(board), (x, y)) == None
      ensures board == Rules.Claim(old(board), who, (x, y))
      ensures territory == if ok then old(territory)[who := old(territory)[who] + 1] else old(territory)
      ensures Rules.Extends(old(board), board)
    {
      Rules.ClaimEffect(board, who, (x, y));
      if grid[x, y] == None {
        ghost var before := board;
        PutKeepsCounted(before, territory, (x, y), who);
        grid[x, y] := Some(who);
        territory := territory[who := territory[who] + 1];
        board := Put(before, (x, y), who);
        ok := true;
        forall i, j | 0 <= i < GridSize && 0 <= j < GridSize
          ensures grid[i, j] == board[i][j]
        {
          assert board[i][j] == At(board, (i, j));
          if (i, j) != (x, y) {
            assert At(board, (i, j)) == At(before, (i, j)) == old(grid[i, j]);
          }
        }
      } else {
        ok := false;
      }
    }

    /** The human's move at a pixel position: the cell under it is claimed
        exactly when it is free and one of its neighbours holds the colour of
        `who`; otherwise nothing changes. */
    method PlayerTurn(pos: (int, int), who: Owner) returns (accepted: bool)
      requires Valid() && InBounds(ToCell(pos))
      modifies this, grid
      ensures Valid() && grid == old(grid) && playerTurnActive == old(playerTurnActive)
      ensures accepted <==> Rules.Legal(old(board), who, ToCell(pos))
      ensures board == if accepted then Put(old(board), ToCell(pos), who) else old(board)
      ensures territory == if accepted then old(territory)[who := old(territory)[who] + 1] else old(territory)
      ensures Rules.Extends(old(board), board)
    {
      var x, y := pos.0 / CellSize, pos.1 / CellSize;
      assert (x, y) == ToCell(pos);
      if grid[x, y] == None {
        var neighbours := AdjacentCells(x, y);
        for i := 0 to |neighbours|
          invariant forall k :: 0 <= k < i ==> At(board, neighbours[k]) != Some(who)
        {
          var (nx, ny) := neighbours[i];
          if grid[nx, ny] == Some(who) {
            assert neighbours[i] in Neighbours((x, y)) && At(board, neighbours[i]) == Some(who);
            accepted := Claim(who, x, y);
            return;
          }
        }
        assert !Rules.Touches(board, who, (x, y));
      }
      accepted := false;
    }

    /** The free cells among the neighbours of (x, y), in neighbour order. */
    method FreeNeighbours(x: int, y: int) returns (free: seq<Cell>)
      requires Mirrors() && InBounds((x, y))
      ensures free == Rules.FreeOf(board, Neighbours((x, y)))
    {
      var neighbours := AdjacentCells(x, y);
      free := [];
      for k := 0 to |neighbours|
        invariant free == Rules.FreeOf(board, neighbours[..k])
      {
        var (nx, ny) := neighbours[k];
        assert neighbours[..k + 1][..k] == neighbours[..k];
        if grid[nx, ny] == None {
          free := free + [(nx, ny)];
        }
      }
      assert neighbours[..|neighbours|] == neighbours;
    }

    /** What the cells of row x contribute to the candidate list of `who`,
        in the order y = 0 .. GridSize - 1. */
    method RowCandidates(who: Owner, x: int) returns (row: seq<Cell>)
      requires Mirrors() && 0 <= x < GridSize
      ensures row == Rules.RowMoves(board, who, x, GridSize)
    {
      row := [];
      for y := 0 to GridSize
        invariant row == Rules.RowMoves(board, who, x, y)
      {
        Rules.RowMovesStep(board, who, x, y);
        if grid[x, y] == Some(who) {
          var free := FreeNeighbours(x, y);
          row := row + free;
        }
      }
    }

    /** The candidate list of `who`, built by the nested scan over x and y,
        exactly as the rules describe it. */
    method AvailableMoves(who: Owner) returns (moves: seq<Cell>)
      requires Mirrors()
      ensures moves == Rules.Candidates(board, who)
    {
      moves := [];
      for x := 0 to GridSize
        invariant moves == Rules.MovesBefore(board, who, x)
      {
        var row := RowCandidates(who, x);
        moves := moves + row;
      }
    }

    /** One automated turn of `who`: the candidate at `draw` modulo the
        length of the candidate list is claimed; with no candidate nothing
        changes. */
    method AiTurn(who: Owner, draw: nat)
      requires Valid()
      modifies this, grid
      ensures Valid() && grid == old(grid) && playerTurnActive == old(playerTurnActive)
      ensures board == Rules.AiMove(old(board), who, draw)
      ensures territory == if |Rules.Candidates(old(board), who)| == 0 then old(territory)
                           else old(territory)[who := old(territory)[who] + 1]
      ensures Rules.Extends(old(board), board)
    {
      var moves := AvailableMoves(who);
      if |moves| > 0 {
        var (cx, cy) := moves[draw % |moves|];
        Rules.CandidatesAreLegal(board, who, (cx, cy));
        var _ := Claim(who, cx, cy);
      }
    }

    /** The scan of the rows for a free cell: the game is over exactly when
        no cell is free. */
    method GameOver() returns (over: bool)
      requires Mirrors()
      ensures over <==> IsFull(board)
    {
      for x := 0 to GridSize
        invariant forall i, j :: 0 <= i < x && 0 <= j < GridSize ==> board[i][j] != None
      {
        for y := 0 to GridSize
          invariant forall j :: 0 <= j < y ==> board[x][j] != None
        {
          if grid[x, y] == None {
            return false;
          }
        }
      }
      return true;
    }

    /** The counters always add up to the number of occupied cells, so the
        game is over exactly when they add up to GridSize². */
    lemma CountersCoverOccupied()
      requires Valid()
      ensures territory[Player] + territory[AI1] + territory[AI2] + territory[AI3] == |Occupied(board)|
      ensures IsFull(board) <==>
        territory[Player] + territory[AI1] + territory[AI2] + territory[AI3] == GridSize * GridSize
    {
      CountsCoverOccupied(board);
    }

    /** The automated players' round: AI1, AI2 and AI3 each take one turn,
        in that order, with the given draws. */
    method AiRound(d1: nat, d2: nat, d3: nat)
      requires Valid()
      modifies this, grid
      ensures Valid() && grid == old(grid) && playerTurnActive == old(playerTurnActive)
      ensures board == Rules.AiRound(old(board), d1, d2, d3)
      ensures Rules.Extends(old(board), board)
    {
      AiTurn(AI1, d1);
      AiTurn(AI2, d2);
      AiTurn(AI3, d3);
      Rules.AiRoundEffect(old(board), d1, d2, d3);
    }

    /** The refresh of the game: when the human has just moved, AI1, AI2 and
        AI3 move in that order with the given draws and the human moves next;
        then the end of the game is checked and, when it is over, the winner
        is named. */
    method Update(d1: nat, d2: nat, d3: nat) returns (over: bool, winner: Option<Owner>)
      requires Valid()
      modifies this, grid
      ensures Valid() && grid == old(grid) && playerTurnActive
      ensures board == if old(playerTurnActive) then old(board) else Rules.AiRound(old(board), d1, d2, d3)
      ensures Rules.Extends(old(board), board)
      ensures over <==> IsFull(board)
      ensures winner == if over then Some(Rules.Winner(territory)) else None
    {
      if !playerTurnActive {
        AiRound(d1, d2, d3);
        playerTurnActive := true;
      }
      over := GameOver();
      winner := if over then Some(Rules.Winner(territory)) else None;
    }

    /** The conquer button with slider values (xPos, yPos), followed by the
        refresh that ends every run of the page: while the human is to move,
        the selected cell is tried, and an accepted move hands the turn to the
        automated players; the refresh then plays their round if it is due and
        checks the end of the game. The refresh is not repeated once the game
        is over, because announcing the winner stops the run. */
    method Conquer(xPos: int, yPos: int, d1: nat, d2: nat, d3: nat)
      returns (accepted: bool, over: bool, winner: Option<Owner>)
      requires Valid() && 0 <= xPos < GridSize && 0 <= yPos < GridSize
      modifies this, grid
      ensures Valid() && grid == old(grid) && playerTurnActive
      ensures accepted <==> old(playerTurnActive) && Rules.Legal(old(board), Player, (xPos, yPos))
      ensures board == if accepted then Rules.AiRound(Put(old(board), (xPos, yPos), Player), d1, d2, d3)
                       else if old(playerTurnActive) then old(board)
                       else Rules.AiRound(old(board), d1, d2, d3)
      ensures !accepted && old(playerTurnActive) ==> territory == old(territory)
      ensures Rules.Extends(old(board), board)
      ensures over <==> IsFull(board)
      ensures winner == if over then Some(Rules.Winner(territory)) else None
    {
      accepted, over, winner := false, false, None;
      if playerTurnActive {
        SliderRoundTrip(xPos, yPos);
        accepted := PlayerTurn((xPos * CellSize, yPos * CellSize), Player);
        if accepted {
          playerTurnActive := false;
          over, winner := Update(d1, d2, d3);
        }
      }
      if !over {
        over, winner := Update(d1, d2, d3);
      }
    }
  }
}
