# Move decision and move handling of the sfm chess front end

This project models the decision and input logic of `sf/sfm.py`, the terminal front end of a
small chess engine. The position model, move generator, search and square parser live in the
engine library `sflib`, which is not part of this model: positions are a type parameter, a
position's valid moves are a sequence of moves, search results are an input sequence, and
square parsing is a function parameter.

What is modelled:

- **`next_move`** (module `Selection`). If the opening book has a nonempty move list for the
  position, one of those moves is played and no search result is read. Otherwise exactly one
  result per valid root move is taken off the result queue (`Gather`), results whose best reply is
  `None` are dropped (`Kept`), and the first entry of minimal score is the best one (`Best`,
  via `ArgMin`, which is Python's `min` with a key). If the best score is below `-MATE_VALUE`,
  the move played is that of the first entry of *minimal* depth among the entries below
  `-MATE_VALUE` (`DecisiveChoice`). Otherwise the candidate list is the kept entries whose score
  differs from the best by less than 51, sorted by score (`CandidateList`), and any one of them is
  played. An empty kept list makes Python's `min` raise; the model returns `Failure(NoSolution)`.
  `MATE_VALUE` is the parameter `mateValue`.
- **`rotate_move`** (module `Moves`): `(119 - a, 119 - b)`, an involution that keeps moves on
  the 120-cell board.
- **`init_board`** (module `Board`): two border rows, each line behind a one-space sentinel,
  a border row and a ten-space closing row. The file is given as its lines (line breaks kept as
  Python's file iteration yields them).
- **`accept_move`** (module `MoveInput`): lines are read until one parses to a move whose
  rotation is a valid move; that rotated move is returned.

Random picks (`random.sample`) are nondeterministic choices (`:|`). Scores are from the point of
view of the side replying to the root move, so a score below `-MATE_VALUE` means the human is
mated; the code prints "You will lose..." in that branch. The code picks uniformly among book
moves and among candidates, and in the mate branch takes the entry of minimal depth; the model
follows the code.

## Model

| member | source | states |
|---|---|---|
| Moves.RotateMove | sf/sfm.py:71-72 | a move is on the 120-cell board exactly when its rotation is |
| Moves.RotateMoveInvolutive | sf/sfm.py:71-72 | rotating a move twice gives it back |
| Moves.RotateMoveInjective | sf/sfm.py:71-72 | distinct moves have distinct rotations |
| Board.InitBoard | sf/sfm.py:17-30 | the loop builds exactly the framed board: two border rows, `' ' + line` for each line in order, a border row and the closing row |
| Board.BodyLength | sf/sfm.py:23-24 | the sentinelled lines take the sum of (line length + 1) characters |
| Board.FramedLength | sf/sfm.py:17-30 | the framed board is 40 characters longer than the sentinelled lines |
| Board.BodyCell | sf/sfm.py:23-24 | with rows of 9 characters, row i starts at offset 10 * i with the sentinel space, followed by the row's characters |
| Board.StandardBoard | sf/sfm.py:17-30 | 8 rows of 9 characters give 120 cells, the range of move indices; the first 20 cells are the two border rows and row r starts at cell 10 * (r + 2) |
| Selection.Kept | sf/sfm.py:54-59 | every kept entry comes from a received result with a reply, every received result with a reply is kept, and no more entries than results are kept |
| Selection.Gather | sf/sfm.py:54-59 | the fan-in loop reads the first n results and keeps exactly the entries `Kept` describes |
| Selection.ArgMin | sf/sfm.py:61-64 | Python's `min` with a key: a position whose key is no greater than any other, and strictly smaller than every earlier one |
| Selection.Filter | sf/sfm.py:64-66 | the comprehension keeps exactly the elements satisfying its condition (its order by `FilterPositionsSound`) |
| Selection.FilterPositionsSound | sf/sfm.py:64-66 | the comprehension keeps order and duplicates: its k-th element is the element at the k-th of strictly increasing positions of the input |
| Selection.FilterPositionsComplete | sf/sfm.py:64-66 | every input position whose element satisfies the condition is one of those positions |
| Selection.KeptPositionsSound | sf/sfm.py:54-59 | `next_moves` keeps arrival order: its k-th entry comes from the k-th of strictly increasing positions of the received results, each with a reply |
| Selection.KeptPositionsComplete | sf/sfm.py:54-59 | every received result with a reply is at one of those positions |
| Selection.FirstMinPosition | sf/sfm.py:64 | `min` with a key over a comprehension picks, in the input's order, the first element satisfying the condition whose key is minimal |
| Selection.KeptFirstMinPosition | sf/sfm.py:54-61 | `min` with a key over `next_moves` picks, in arrival order, the first result with a reply whose key is minimal |
| Selection.BestInArrivalOrder | sf/sfm.py:54-61 | `best_move` is the first received result, in arrival order, with a reply and a minimal score |
| Selection.DecisiveChoiceFirst | sf/sfm.py:64 | the position in the kept list of the mate-branch entry, with every earlier entry scoring below `-MATE_VALUE` having a strictly greater depth |
| Selection.Insert | sf/sfm.py:66 | inserting into a sorted list keeps it sorted and adds exactly the new element |
| Selection.SortByScore | sf/sfm.py:66 | `sorted` by score gives a score-sorted permutation |
| Selection.SortByScoreMembers | sf/sfm.py:66 | sorting keeps exactly the elements of its input |
| Selection.Near | sf/sfm.py:66 | the window filter keeps exactly the kept entries within 51 of the best score |
| Selection.CandidateList | sf/sfm.py:66 | `candidate_moves` is sorted by score; its members are stated by `CandidateListProperties` |
| Selection.Best | sf/sfm.py:61 | `best_move` is a kept entry scoring no more than any kept entry; first-ness is stated by `BestIsFirstMinimum` and `BestInArrivalOrder` |
| Selection.Decisive | sf/sfm.py:64 | the mate-branch comprehension keeps exactly the kept entries scoring below `-MATE_VALUE` |
| Selection.DecisiveChoice | sf/sfm.py:64 | the entry played in the mate branch is a kept entry scoring below `-MATE_VALUE`; its depth and tie-break are stated by `DecisiveChoiceProperties` |
| Selection.BookHit | sf/sfm.py:45-46 | `opening_list.get(pos)` is truthy: the position is a key and its move list is nonempty (a definition; used by `NextMove`'s contract) |
| Board.Framed | sf/sfm.py:17-30 | the framed board (a definition; `InitBoard` is proved to build it, `FramedLength`, `BodyCell` and `StandardBoard` state its layout) |
| MoveInput.Acceptable | sf/sfm.py:76-79 | an input line is accepted when its parsed move, rotated, is a valid move (a definition; used by `AcceptMove`'s contract) |
| Selection.BestIsFirstMinimum | sf/sfm.py:61 | `best_move` is a kept entry scoring no more than any kept entry and the first of its score |
| Selection.CandidateListProperties | sf/sfm.py:66-69 | the candidate list contains `best_move`, holds exactly the kept entries scoring in [best, best + 50], and is sorted by score |
| Selection.DecisiveChoiceProperties | sf/sfm.py:62-64 | the entry played in the mate branch scores below `-MATE_VALUE` and has depth no greater than any other such entry, and no such entry of its depth comes before it in the kept list |
| Selection.KeptMovesReceived | sf/sfm.py:55-59 | a kept entry's root move is one carried by a received result |
| Selection.NextMove | sf/sfm.py:44-69 | book hit: a book move, no result read; otherwise exactly one result per valid move is read, no kept entry gives `NoSolution`, the mate branch plays the decisive choice, else a candidate's move is played, and that move is valid when the results were for valid moves |
| MoveInput.AcceptMove | sf/sfm.py:74-83 | the returned move is the rotation of the first line whose parsed, rotated move is valid, and is in the valid moves; lines before it were not acceptable; when the input runs out no move is returned and no line was acceptable |

## Left out

- `sflib` (positions, `valid_moves`, `move`, `rotate`, `search`, `parse`, `format_move`, `print_pos`, `MATE_VALUE`) is not part of this model; its values enter as parameters.
- The opening table construction `openings()` (sf/sfm.py:33-39) depends on `sflib.parse` and the position constructor; the book is a given map.
- The worker processes, the task queue fan-out loop (`in_q.put`, sf/sfm.py:49-52) and process start and teardown are concurrency; the result queue is the input sequence `arrivals`, in arrival order.
- Selection.NextMove: requires at least one queued result per valid move outside the book branch, because Python blocks forever on an empty queue, which the model does not represent.
- Selection.NextMove: states which moves may be played, not the uniform distribution of `random.sample`.
- Selection.SortByScore: states sortedness and permutation but not stability of Python's `sorted`; only which candidates exist matters for the pick.
- Reading the board file, `raw_input`, the regular-expression match of the move text (folded into the `parse` parameter of `AcceptMove`) and all `print` calls are I/O.
- `main` (sf/sfm.py:85-119): argument handling, `DEPTH`, and the game loop.
- `sf/app.py` is a web handler and is not part of this model.
