/** The first engine version (minesweeper_engine.py): the same board, and a
    reveal that opens exactly one cell. */
module Engine {
  import opened Board

  class MinesweeperGame {
    var width: nat
    var height: nat
    var numMines: nat
    var mineBoard: Grid<Cell>
    var gameBoard: Grid<Shown>
    /** How many draws the placement loop consumed. */
    ghost var drawsUsed: nat

    ghost predicate Valid()
      reads this
    {
      && Shape(mineBoard, width, height) && Shape(gameBoard, width, height)
      && CountsCorrect(mineBoard, width, height)
      && Consistent(mineBoard, gameBoard, width, height)
    }

    /** `__init__`: mines from the draws, then the counts; nothing revealed. */
    constructor (width: nat, height: nat, numMines: nat, draws: seq<Pos>)
      requires forall i :: 0 <= i < |draws| ==> InBounds(width, height, draws[i])
      requires numMines <= |Drawn(draws)|
      ensures Valid()
      ensures this.width == width && this.height == height && this.numMines == numMines
      ensures |MineCells(mineBoard, width, height)| == numMines
      ensures drawsUsed <= |draws| && MineCells(mineBoard, width, height) == Drawn(draws[..drawsUsed])
      ensures drawsUsed > 0 ==> |Drawn(draws[..drawsUsed - 1])| < numMines
      ensures gameBoard == Filled(width, height, Hidden)
    {
      this.width := width;
      this.height := height;
      this.numMines := numMines;
      var placed, used := PlaceMines(width, height, numMines, draws);
      var counted := FillCounts(placed, width, height);
      mineBoard := counted;
      gameBoard := Filled(width, height, Hidden);
      drawsUsed := used;
    }

    /** `reveal_cell(x, y)`: a mine or an already revealed cell leaves the
        board as it is; otherwise the cell shows its count. Returns
        `is_game_won()` on the new board. */
    method RevealCell(x: int, y: int) returns (won: bool)
      requires Valid() && InBounds(width, height, Pos(x, y))
      modifies this`gameBoard
      ensures Valid()
      ensures gameBoard == if At(mineBoard, Pos(x, y)) == Mine || At(old(gameBoard), Pos(x, y)) != Hidden
                           then old(gameBoard)
                           else Put(old(gameBoard), Pos(x, y), Revealed(At(mineBoard, Pos(x, y))))
      ensures won <==> Won(mineBoard, gameBoard, width, height)
    {
      var t := Pos(x, y);
      if At(mineBoard, t) == Mine {
        // the source prints "Game lost" and changes nothing
      } else if At(gameBoard, t) != Hidden {
        // the source prints "Cannot play in an already revealed cell"
      } else {
        RevealKeepsConsistent(mineBoard, gameBoard, width, height, t);
        gameBoard := Put(gameBoard, t, Revealed(At(mineBoard, t)));
      }
      won := IsGameWon(mineBoard, gameBoard, width, height);
    }
  }

  /** Revealing a non-mine cell with its own value keeps the revealed board
      consistent with the mine board, keeps every revealed cell, and hides
      exactly one cell fewer. */
  lemma RevealKeepsConsistent(m: Grid<Cell>, g: Grid<Shown>, w: nat, h: nat, t: Pos)
    requires Shape(m, w, h) && Shape(g, w, h) && Consistent(m, g, w, h)
    requires InBounds(w, h, t) && At(m, t) != Mine && At(g, t) == Hidden
    ensures Shape(Put(g, t, Revealed(At(m, t))), w, h)
    ensures Consistent(m, Put(g, t, Revealed(At(m, t))), w, h)
    ensures HiddenCells(Put(g, t, Revealed(At(m, t))), w, h) == HiddenCells(g, w, h) - {t}
  {
    var g' := Put(g, t, Revealed(At(m, t)));
    forall p ensures p in HiddenCells(g', w, h) <==> p in HiddenCells(g, w, h) - {t} {
      HiddenCellsMember(g, w, h, p);
      HiddenCellsMember(g', w, h, p);
    }
  }
}
