# Territory conquest on a 10 × 10 grid

This project models `jeu.py`, a small territory game. Four owners take part:
the human Player and three automated players, AI1, AI2 and AI3. The board is a
10 × 10 grid. Each owner starts with one corner cell and a territory counter of 1:

- Player: (0, 0)
- AI1: (9, 9)
- AI2: (0, 9)
- AI3: (9, 0)

The game runs as follows:

- **The human's move.** The human picks a cell with two sliders. The move is
  accepted when the cell is free and one of its up, down, left or right
  neighbours is already the human's. An accepted move colours the cell and adds
  one to the human's counter.
- **The automated round.** After an accepted move, AI1, AI2 and AI3 each take
  one turn, in that order. Each builds a candidate list: it scans every cell it
  owns, x first and then y, and appends each free neighbour of that cell. It
  then claims one entry at random. With no candidate it passes.
- **The end.** The game is over when no cell is free. The winner is the owner
  with the largest counter. Ties go to the first owner in the order Player,
  AI1, AI2, AI3, because that is the order Python's `max` scans.

The model has three modules:

- **`Board`** (`board.dfy`) holds the grid as a value: cells, bounds, the
  adjacency list `Neighbours`, occupancy counts, the seeded start position and
  the pixel-to-cell conversion.
- **`Rules`** (`rules.dfy`) holds the game's rules as functions on grid
  values: claiming a cell, the legality of a human move, the automated
  players' candidate list, their move and their round, and the winner.
- **`Simulation`** (`simulation.dfy`) holds the running game as the class
  `Game`. Its cells are an `array2` written in place, alongside the counter
  map and the turn flag. A ghost copy `board` of the array lets every method be
  stated through the `Rules` functions. `Valid()` ties the array to `board` and
  each counter to the number of cells of its owner's colour. `Restart`
  establishes `Valid()`; every other method that changes the game requires it
  and keeps it.

Randomness is a parameter. `random.choice` over the candidate list becomes a
caller-supplied `draw`, and the entry chosen is `draw % |candidates|`. Every
entry can therefore be chosen, and nothing is assumed about the distribution.

## Model

| member | source | states |
|---|---|---|
| Board.Neighbours | jeu.py:51-59 | the adjacency list has at most four cells, all inside the grid |
| Board.AdjacentCells | jeu.py:51-59 | the loop over the four offsets returns exactly `Neighbours((x, y))` |
| Board.NeighboursAreOrthogonal | jeu.py:53-58 | a cell is in the adjacency list of c if and only if it is inside the grid and one step up, down, left or right of c |
| Board.NeighboursInOrder | jeu.py:53-58 | the adjacency list is up, down, left, right, each present exactly when it is inside the grid |
| Board.Shifted | jeu.py:53-58 | the scan over a list of offsets yields at most one cell per offset, each inside the grid |
| Board.ShiftedSnoc | jeu.py:55-58 | each further offset appends its cell when that cell is inside the grid, and nothing otherwise |
| Board.Put | jeu.py:64 | colouring a cell changes that cell and no other, and keeps the grid's shape |
| Board.PutCounts | jeu.py:63-65 | colouring a free cell adds one cell to its new owner's count, leaves every other count alone, and adds one occupied cell |
| Board.PutKeepsCounted | jeu.py:63-65 | when each counter matches its owner's cells, colouring a free cell and incrementing that owner's counter keeps them matching |
| Board.CountsCoverOccupied | jeu.py:30-41 | the four owners' cell counts add up to the number of occupied cells |
| Board.IsFull | jeu.py:93-98 | no cell is free exactly when all GridSize × GridSize cells are occupied |
| Board.FullMeansAllOccupied | jeu.py:93-98 | the scan for a free cell finds none if and only if the occupied cells number GridSize² |
| Board.Seeded | jeu.py:27-41 | the start grid is well formed, with each owner on its corner and every other cell free |
| Board.SeededCounts | jeu.py:30-41 | on the start grid every owner holds exactly one cell, matching the start counters of 1 |
| Board.SliderRoundTrip | jeu.py:155-160 | a slider value scaled by CellSize and floor-divided back (line 71) gives the selected cell, inside the grid |
| Board.ToCell | jeu.py:71 | the cell computed from a pixel position is the one whose CellSize × CellSize square contains it, and a position inside the drawn grid gives a cell inside the grid |
| Board.SeedOwner | jeu.py:38-41 | only the four corners of the grid are seeded |
| Board.StartCounters | jeu.py:31-34 | every owner's territory counter starts at 1 |
| Rules.Claim | jeu.py:61-67 | claiming keeps the grid well formed |
| Rules.ClaimEffect | jeu.py:61-67 | a free cell takes the claimant's colour, an occupied cell leaves the grid unchanged, and nothing is freed or recoloured; the claimant's count goes up by one exactly when the cell was free |
| Rules.Legal | jeu.py:72-76 | the human's test: the cell is free and some cell of its adjacency list has the mover's colour; `Rules.LegalMeansAdjacent` characterises it geometrically |
| Rules.LegalMeansAdjacent | jeu.py:69-77 | a human move is legal if and only if the cell is free and some orthogonally adjacent cell inside the grid has the mover's colour |
| Rules.FreeOfMembers | jeu.py:85-87 | a cell is kept by the free-neighbour filter if and only if it is in the list and free |
| Rules.FreeAroundIsFreeOf | jeu.py:85-87 | scanning the offsets and keeping in-grid free cells is the same as filtering the adjacency list for free cells |
| Rules.RowMovesStep | jeu.py:83-87 | each step of the inner y loop appends the free neighbours of (x, y) when that cell is the mover's, and nothing otherwise |
| Rules.MovesFromMembers | jeu.py:84-87 | a cell is contributed by p if and only if p is the mover's, the cell is next to p, and the cell is free |
| Rules.MovesFromAreLegal | jeu.py:84-87 | every cell p contributes is inside the grid and a legal move for the mover |
| Rules.RowMovesAreLegal | jeu.py:83-87 | every cell the scan of a row contributes is inside the grid and legal |
| Rules.MovesBeforeAreLegal | jeu.py:82-87 | every cell the scan of the first m rows contributes is inside the grid and legal |
| Rules.RowMovesHas | jeu.py:83-87 | every cell that (x, j) contributes appears in the scan of row x up to any k > j |
| Rules.MovesBeforeHas | jeu.py:82-87 | every cell that p contributes appears in the scan of the first m rows, for any m past p's row |
| Rules.Candidates | jeu.py:81-87 | the automated player's list, duplicates included: for each of its cells in x-then-y order, that cell's free neighbours in adjacency order; `Rules.CandidatesAreLegal` characterises its members |
| Rules.CandidatesAreLegal | jeu.py:79-87 | a cell is in the candidate list if and only if it is inside the grid and a legal move for the mover |
| Rules.NoCandidateNoMove | jeu.py:89 | the candidate list is empty if and only if the mover has no legal cell anywhere on the grid |
| Rules.AiMoveEffect | jeu.py:89-91 | an automated turn frees and recolours nothing; with no candidate the grid is unchanged; otherwise exactly the chosen cell, which is in the grid and legal, takes the mover's colour, whose count goes up by one while the others stay |
| Rules.AiMove | jeu.py:89-91 | one automated turn keeps the grid well formed; `Rules.AiMoveEffect` states what it changes |
| Rules.AnyCandidateCanBeChosen | jeu.py:90 | every entry of the candidate list is the cell claimed for some draw |
| Rules.AiRound | jeu.py:129-132 | the round of AI1, AI2 and AI3 keeps the grid well formed |
| Rules.AiRoundEffect | jeu.py:129-132 | a round frees and recolours nothing, leaves the human's count alone, and occupies between zero and three more cells |
| Rules.AiStep | jeu.py:79-91 | one automated turn frees and recolours nothing, leaves the human's count alone, and occupies at most one more cell |
| Rules.FullGridIsFinal | jeu.py:93-98 | on a full grid no move is legal, every candidate list is empty and every automated turn leaves the grid unchanged |
| Rules.MaxIndex | jeu.py:135 | the index `max` settles on holds a largest element, and every earlier element is strictly smaller |
| Rules.Scores | jeu.py:135 | the scores are the counters listed in players-table order |
| Rules.Winner | jeu.py:135 | the winner's counter is the largest, and every owner before it in table order has a strictly smaller one |
| Rules.WinnerIsUnique | jeu.py:135 | any owner with both of those properties is the winner |
| Simulation.Game.NewGrid | jeu.py:27-41 | a fresh GridSize × GridSize array holding the start grid |
| Simulation.Game.constructor | jeu.py:27-41 | the game starts on the start grid with every counter at 1, the human to move, and the counter invariant holding |
| Simulation.Game.Restart | jeu.py:140-148 | the restart button puts back the start grid, every counter at 1 and the human to move |
| Simulation.Game.Claim | jeu.py:61-67 | the answer is true exactly when the cell was free; the board becomes the rules' claim and only the claimant's counter moves; the counter invariant is kept |
| Simulation.Game.PlayerTurn | jeu.py:69-77 | the move is accepted if and only if it is legal, and then exactly that cell takes the mover's colour and the mover's counter goes up by one; otherwise nothing changes |
| Simulation.Game.FreeNeighbours | jeu.py:85-87 | the loop over the adjacency list returns its free cells in order |
| Simulation.Game.RowCandidates | jeu.py:83-87 | the inner y loop builds the rules' contribution of row x |
| Simulation.Game.AvailableMoves | jeu.py:81-87 | the nested scan builds exactly the rules' candidate list |
| Simulation.Game.AiTurn | jeu.py:79-91 | the board becomes the rules' automated move; the mover's counter goes up by one exactly when it had a candidate; the counter invariant is kept |
| Simulation.Game.GameOver | jeu.py:93-98 | the row scan answers true if and only if no cell is free |
| Simulation.Game.CountersCoverOccupied | jeu.py:65 | the four counters add up to the number of occupied cells, and to GridSize² exactly when the game is over |
| Simulation.Game.AiRound | jeu.py:129-132 | the three automated turns make the board the rules' round |
| Simulation.Game.Update | jeu.py:129-137 | when the automated players are due they play their round and the human moves next; the result says game over if and only if the grid is full, and then names the rules' winner of the counters |
| Simulation.Game.Conquer | jeu.py:158-164 | the move is accepted if and only if the human is to move and the selected cell is legal; the board ends as the claim followed by the automated round, or unchanged after a rejected move; the refresh reports game over exactly when the grid is full, with the winner |

## Left out

- Drawing is not modelled: `draw_grid`, `display_scores`, `pygame.init`, fonts and the surface. These only render state.
- The image conversion through `surfarray`, numpy and `st.image` is not modelled. It is output only.
- The colours are not modelled as RGB tuples. Each colour stands for its owner, and WHITE and BLACK are used only for drawing.
- The `is_human` flags of the players table are not modelled. No code reads them.
- Streamlit widgets are not modelled. Slider values and button presses are the parameters of `Conquer` and `Restart`.
- The "Jouer" button (lines 150-152) is the refresh, which is `Update` itself.
- Streamlit re-runs the whole script on every interaction. The model instead treats the module-level state as one `Game` object that persists between interactions.
- `st.write` and `st.stop` are not modelled. `Update` and `Conquer` return the game-over flag and the winner instead of writing them.
- The randomness of `random.choice` is not modelled: the draw is a parameter, and the model states nothing about the distribution.
- The candidate list keeps duplicates, exactly as the code builds it. A free cell bordering several of the mover's cells is listed once for each, which makes it more likely to be drawn. So the pick is weighted by how many of the mover's cells a free cell borders, not uniform over distinct cells. The model follows the code.
- Simulation.Game.PlayerTurn: requires the cell under the pixel position to be inside the grid. The only caller, the conquer button, guarantees this (see `SliderRoundTrip`). Python's behaviour on negative or too-large indices (wrap-around or `IndexError`) is not modelled.
