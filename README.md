# Minesweeper engine for an answer-set-programming player

This project models the game engine of a Minesweeper player whose moves come
from an answer-set solver. There are two versions of the engine class.

The board model is shared by both versions:

- a mine board holding `"mine"` or the number of neighbouring mines;
- a revealed board holding `" "` (hidden) or a value copied from the mine board;
- construction, which places mines and then counts neighbours;
- the win test.

The first version (`minesweeper_engine.py`) reveals one cell per move. The
second (`minesweeper_engine2.py`) adds three things:

- a recursive flood fill from zero cells;
- an opening move that reveals the first zero cell;
- the text exchanged with the solver: the facts written for it, and the
  parser that reads the next move out of its reply.

Modules:

- `Board`: cells, grids, placement from a draw sequence, neighbour counts,
  and `is_game_won`.
- `Engine`: the first version's class.
- `Engine2`: the second version's class, with the flood fill and `first_move`.
- `Facts`: the fact lines of `write_to_file`, and reading a line back.
- `Reply`: `parse_asp`.
- `Strings`: the Python string built-ins those use, namely `replace`,
  `split`, `find`, `in`, slicing and `str(int)`.

Grids are lists of rows indexed `[y][x]`. They are class fields that the
methods reassign. Randomness is replaced by a parameter: the constructor
takes the sequence of cells that `random.randint` would have drawn.

## Model

| member | source | states |
|---|---|---|
| Board.MineCellsMember | minesweeper_engine2.py:28-29 | a cell is in the mine set exactly when it is on the board and holds "mine" |
| Board.PlaceMines | minesweeper_engine2.py:21-30 | the placement loop ends with exactly numMines mines, which are exactly the distinct cells among the draws it consumed; it stops at the first draw that completes the count; mines are the only cells set |
| Board.PlacementNeedsRoom | minesweeper_engine2.py:21-30 | when the draws can complete the placement, numMines is at most width * height |
| Board.NoMinesInitially | minesweeper_engine2.py:18 | the fresh mine board (all None) has no mines |
| Board.CountNeighbourMines | minesweeper_engine2.py:36-48 | the nested offset loops count exactly the in-bounds 8-neighbours that are mines, and the count is at most 8 |
| Board.CountAtOffsets | minesweeper_engine2.py:38-48 | counting over the nine offsets of a non-mine cell gives the number of adjacent mines, at most 8 |
| Board.CountAtIsCardinality | minesweeper_engine2.py:38-48 | a count over distinct offsets equals the size of the set of mines it hits |
| Board.FillCounts | minesweeper_engine2.py:33-51 | the counting pass keeps the mines where they are and gives every other cell its true neighbour count |
| Board.CountsAtMostEight | minesweeper_engine2.py:33-51 | every count on the mine board lies in 0..8 |
| Board.ZeroHasNoMineAround | minesweeper_engine2.py:97-102 | no in-bounds neighbour of a zero cell is a mine, so the flood fill never reveals one |
| Board.Filled | minesweeper_engine2.py:18-19 | a filled board has the given shape and the given value in every cell |
| Board.Put | minesweeper_engine2.py:81 | assigning one cell changes that cell and no other |
| Board.HiddenCellsMember | minesweeper_engine2.py:118 | a cell is in the hidden set exactly when it is on the board and shows " " |
| Board.IsGameWon | minesweeper_engine2.py:113-121 | the scan returns true exactly when no cell is both a non-mine and hidden |
| Board.WonIffOnlyMinesHidden | minesweeper_engine2.py:113-121 | on a consistent board, the game is won exactly when the hidden cells are the mine cells |
| Board.AllCellsSize | minesweeper_engine2.py:18 | a width x height board has width * height cells |
| Engine.MinesweeperGame.constructor | minesweeper_engine.py:9-42 | after `__init__` there are exactly numMines mines, namely the distinct drawn cells, every other cell holds its neighbour count, and the revealed board is all hidden |
| Engine.MinesweeperGame.RevealCell | minesweeper_engine.py:61-79 | a mine or an already revealed cell leaves the board unchanged; otherwise exactly that cell is revealed with its mine-board value; the result is the win test on the new board |
| Engine.RevealKeepsConsistent | minesweeper_engine.py:70-71 | revealing a hidden non-mine cell keeps the revealed board consistent and hides exactly one cell fewer |
| Engine2.MinesweeperGame.constructor | minesweeper_engine2.py:10-51 | after `__init__` there are exactly numMines mines, namely the distinct drawn cells, every other cell holds its neighbour count, and the revealed board is all hidden |
| Engine2.MinesweeperGame.RevealCell | minesweeper_engine2.py:70-109 | a mine, or a revealed cell revealed non-recursively, changes nothing; a non-zero target is the only cell written; a zero target shows 0 and leaves no neighbour hidden, no revealed cell changes or reverts, no cell shows a mine, and every newly revealed cell is reached from the target by a chain of adjacent cells that were hidden, each left behind being a zero cell; these clauses fix the new board (Engine2.RevealSpecUnique); the result is the win test on the new board; the recursion terminates because each recursive call has fewer hidden cells |
| Engine2.RevealSpecUnique | minesweeper_engine2.py:70-109 | two boards that both meet the reveal specification for the same old board and target are equal, so the specification states the new board exactly |
| Engine2.PathRevealed | minesweeper_engine2.py:84-102 | a board that reveals the zero target, leaves it no hidden neighbour and opens no new zero cell reveals every cell on every flood path from the target |
| Engine2.PathPrepend | minesweeper_engine2.py:99-100 | a flood path found by the recursive call from a zero neighbour, with the target put in front, is a flood path from the target |
| Board.GridExt | minesweeper_engine2.py:18-19 | two boards of the same shape that agree on every cell are the same board |
| Engine2.MinesweeperGame.RevealNeighbours | minesweeper_engine2.py:84-102 | after the two offset loops around a zero target, every in-bounds neighbour is revealed, no cell revealed before the loops changes, and the flood invariant holds: the board is consistent, the target shows 0, no zero cell other than the target newly has a hidden neighbour, and every newly revealed cell lies on a flood path from the target |
| Engine2.MinesweeperGame.VisitNeighbour | minesweeper_engine2.py:89-102 | one offset: a neighbour off the board or already revealed leaves the board unchanged; a hidden non-zero neighbour is the only cell written, with its value; a hidden zero neighbour is revealed as `reveal_cell(n.x, n.y, True)` specifies; the loop state advances to the next offset |
| Engine2.RevealKeepsZeroClosed | minesweeper_engine2.py:84-102 | a reveal never leaves a revealed zero cell with a hidden neighbour it did not already have |
| Engine2.FloodDirect | minesweeper_engine2.py:101-102 | revealing a non-zero neighbour of a zero cell never reveals a mine and keeps the flood-fill invariant |
| Engine2.FloodRecursive | minesweeper_engine2.py:99-100 | the recursive reveal of a zero neighbour keeps the flood-fill invariant of the caller |
| Engine2.FloodEnd | minesweeper_engine2.py:84-102 | once all nine offsets are visited, the flood fill meets the reveal specification |
| Engine2.HiddenShrinks | minesweeper_engine2.py:81 | revealing the target strictly shrinks the set of hidden cells, so the recursion is well founded |
| Engine2.FirstZeroIsFirst | minesweeper_engine2.py:230-240 | the opening scan finds a zero cell with no zero cell before it in row-major order, and finds nothing exactly when the board has no zero cell |
| Engine2.FirstZeroFromIsFirst | minesweeper_engine2.py:232-240 | the same, for the scan resumed from any cell |
| Engine2.MinesweeperGame.FirstMove | minesweeper_engine2.py:230-240 | with no zero cell nothing changes; otherwise the first zero cell in row-major order is revealed as `reveal_cell(col, row)` reveals it |
| Engine2.ScanAsWritten | minesweeper_engine2.py:232-238 | the loops of `first_move` as written (rows over the width, columns over the height, reading `mine_board[row][col]`); any cell it finds is an on-board zero cell |
| Engine2.ScanAsWrittenOnSquare | minesweeper_engine2.py:232-238 | on a square board the loops as written find the same cell as the row-major scan |
| Engine2.ScanAsWrittenFailsOnWideBoard | minesweeper_engine2.py:232-238 | on a 2 x 1 board without zero cells the loops as written index a row that does not exist |
| Facts.WriteFacts | minesweeper_engine2.py:129-135 | the loops emit exactly the board's fact list: board_size first, then the danger levels row by row |
| Facts.BoardFactsSpec | minesweeper_engine2.py:129-135 | the first fact is board_size(width, height); every later fact is a danger level of a revealed cell, 1-indexed, with its mine-board value; the later facts are strictly in row-major order, so each cell appears once; every revealed cell appears and no hidden cell does |
| Facts.DangerFactsSound | minesweeper_engine2.py:132-135 | each danger level written by the first rows names a revealed cell of those rows |
| Facts.DangerFactsOrdered | minesweeper_engine2.py:132-135 | the danger levels come out by row, then by column, each strictly after the previous one |
| Facts.DangerFactsComplete | minesweeper_engine2.py:132-135 | every revealed cell of the first rows has its danger level written |
| Facts.FactText | minesweeper_engine2.py:129-135 | the text of one `file.write` call: it is exactly one line, ending in its only newline |
| Facts.CellText | minesweeper_engine2.py:135 | the text of `mine_board[col][row]` in a danger_level line ("mine", "None" or the decimal count); it is not empty and holds no comma and no newline |
| Facts.ParseFactText | minesweeper_engine2.py:129-135 | every written line reads back as the fact it was written for, so different facts give different lines |
| Facts.ParseCellText | minesweeper_engine2.py:135 | a cell value is written without a comma, and it reads back as the same value |
| Reply.ParseAspReplies | minesweeper_engine2.py:151-227 | the result is determined by the first reply alone, the second reply plays no part, and the count dictionary is the tally of the collected moves |
| Reply.ParseAsp | minesweeper_engine2.py:218-227 | the result of `parse_asp` from the first reply: the index error of `moves_arr[0]` exactly when no move was collected, and otherwise coordinates that hold no comma |
| Reply.CollectMoves | minesweeper_engine2.py:194-202 | the loops building `moves_arr` and `moves2_arr` collect exactly the cuts of the tokens that mention the key, in token order |
| Reply.CountMoves | minesweeper_engine2.py:207-213 | the loop building `move_dict` ends with the tally of the collected moves |
| Reply.Tokens | minesweeper_engine2.py:153-154 | `replace("\r\n", " ").split(" ")` gives at least one token, even for an empty reply |
| Reply.Cut | minesweeper_engine2.py:197 | `arr[arr.find("s"):arr.find(")") + 1:]` is no longer than the token, and every character of it comes from the token |
| Reply.Tally | minesweeper_engine2.py:207-213 | the dictionary `move_dict` as the loop builds it; every key has a count of at least 1 |
| Reply.ParseMove | minesweeper_engine2.py:220-226 | `move[coord_start:coord_end:].split(",")` read as a pair of fields: never the no-move outcome, and the two fields it returns hold no comma |
| Reply.ParseAspNoSafeMove | minesweeper_engine2.py:218 | the index error of `moves_arr[0]` happens exactly when no token mentions "safe_move" |
| Reply.ParseAspFirstMove | minesweeper_engine2.py:195-227 | when the first token mentioning "safe_move" is "safe_move(a,b)", the result is the pair of strings (a, b), with no change of index base |
| Reply.ParseMoveText | minesweeper_engine2.py:218-226 | a move token "safe_move(a,b)" is cut to itself and reads back as its two fields |
| Reply.PicksFirst | minesweeper_engine2.py:195-197 | the first collected move is cut from the first token that mentions the key |
| Reply.PicksEmpty | minesweeper_engine2.py:195-197 | no move is collected exactly when no token mentions the key |
| Reply.PicksAppend | minesweeper_engine2.py:195-197 | collecting from two token lists one after the other collects both in order |
| Reply.TokensHaveNoSeparator | minesweeper_engine2.py:153 | no token contains a space or a "\r\n" |
| Reply.TallyCounts | minesweeper_engine2.py:207-213 | the keys of `move_dict` are exactly the collected moves, and each value is the number of times that move was collected |
| Reply.TallyTotal | minesweeper_engine2.py:207-213 | the values of `move_dict` add up to the number of collected moves |
| Strings.ReplaceCrlf | minesweeper_engine2.py:153 | `replace("\r\n", " ")`; the result is never longer than the input |
| Strings.Split | minesweeper_engine2.py:153 | `split(c)` on one character; there is always at least one piece |
| Strings.SplitCount | minesweeper_engine2.py:153 | `split(c)` gives one piece more than there are occurrences of c |
| Strings.Slice | minesweeper_engine2.py:197 | Python slicing with negative indices counted from the end and both ends clamped; the slice is no longer than the string and every character of it comes from the string |
| Strings.NatToString | minesweeper_engine2.py:129 | `str(n)` for a natural number: at least one character, all decimal digits, and a leading 0 only for n = 0 |
| Strings.ReplaceCrlfRemovesAll | minesweeper_engine2.py:153 | after `replace("\r\n", " ")` no "\r\n" is left |
| Strings.ReplaceCrlfNoop | minesweeper_engine2.py:153 | a string without "\r\n" is left unchanged |
| Strings.SplitPiecesFree | minesweeper_engine2.py:153 | no piece of `split(c)` contains c |
| Strings.SplitThree | minesweeper_engine2.py:222 | two separators cut a string into the three pieces around them |
| Strings.Find | minesweeper_engine2.py:197 | `find` returns -1 exactly when the character is absent, and otherwise its first index |
| Strings.ContainsIffOccurs | minesweeper_engine2.py:196 | `pat in s` holds exactly when pat occurs at some index of s |
| Strings.SliceInside | minesweeper_engine2.py:222 | a slice whose indices are inside the string is the plain subsequence, or empty when start is not before end |
| Strings.SliceNegativeEnd | minesweeper_engine2.py:221-222 | a negative slice end counts from the end of the string |
| Strings.ParseNatToString | minesweeper_engine2.py:129 | reading the decimal digits of `str(n)` gives n back |
| Strings.NatToStringInjective | minesweeper_engine2.py:129 | different numbers are written differently |

## Left out

- Randomness: `random.randint` (minesweeper_engine2.py:24-25, minesweeper_engine.py:23-24) is replaced by a sequence of drawn cells passed to the constructor.
- Engine.MinesweeperGame.constructor and Engine2.MinesweeperGame.constructor require the draws to hold at least numMines distinct cells. Without that the source's loop runs forever, or `randint` raises when a side is 0. The model does not capture that non-termination.
- Engine.MinesweeperGame.RevealCell and Engine2.MinesweeperGame.RevealCell require the coordinates to be on the board. Python's wrap-around for negative indices and its IndexError for large ones are not modelled.
- The construction code is the same in both files (the first version merges the two inner tests into one), so it is modelled once in `Board` and both constructors use it.
- `display_board` and every `print` call are terminal output with no effect on state. This includes "Game lost", "Game won", the messages about already revealed cells, and the UNSATISFIABLE check in `parse_asp`, which only prints.
- `write_to_file`: opening the file and the two `clingo` subprocesses are I/O and calls into another program. Facts.WriteFacts returns the facts in the order they are written. The file's text is the concatenation of their Facts.FactText lines.
- Reply.ParseAspReplies: `known_safe`, `likely_safe` and `likely_safe2` are filled or printed but never read, so they are not modelled. `moves2_arr` is computed as in the source and then discarded, as the source does.
- Reply.ParseAspReplies returns `move_dict` beside the result so that its contents can be stated. The source builds it and never reads it.
- Engine2.MinesweeperGame.RevealCell: the recursion depth is not bounded. Python stops a recursion deeper than its limit (1000 frames by default) with RecursionError, which a long chain of zero cells on a large board could reach; the model's recursion never fails.
- Engine.MinesweeperGame.constructor and Engine2.MinesweeperGame.constructor take width, height and numMines as natural numbers. The source also accepts negative values: `range` of a negative number is empty, so the boards are empty lists, and a negative mine count places no mine. Negative sizes are not modelled.
- The module-level game drivers and the commented-out code are not part of this model.

## Findings

| source | as written | input that shows it | evidently intended | confidence | as-written member | corrected member |
|---|---|---|---|---|---|---|
| minesweeper_engine2.py:232-238 | the outer loop runs `row` over `range(self.width)` and the inner loop runs `col` over `range(self.height)`, but the cell read is `mine_board[row][col]`, whose first index ranges over the height | a 2 x 1 board (width 2, height 1) with two mines: the scan reaches `row = 1` and `mine_board[1]` raises IndexError; on a taller board the column index passes the width | rows over `range(self.height)` and columns over `range(self.width)`; this is identical to the code as written on square boards | not executed | Engine2.ScanAsWrittenFailsOnWideBoard | Engine2.MinesweeperGame.FirstMove |
