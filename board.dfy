/** The board model shared by both engine versions: cell values, the two
    height x width grids indexed [y][x], the mine layout and its neighbour
    counts, mine placement from a supplied draw sequence, and the win test. */
module Board {

  /** A cell position: column x, row y, 0-indexed. */
  datatype Pos = Pos(x: int, y: int)

  /** A cell of `mine_board`: None before counting, "mine", or a neighbour count. */
  datatype Cell = Unset | Mine | Count(n: nat)

  /** A cell of `game_board`: " " (hidden) or a value copied from `mine_board`. */
  datatype Shown = Hidden | Revealed(v: Cell)

  /** An optional value: the opening cell if there is one, a parsed cell or fact. */
  datatype Option<T> = None | Some(value: T)

  /** A list of rows; `b[y][x]` is the cell in column x of row y. */
  type Grid<T> = seq<seq<T>>

  predicate Shape<T>(b: Grid<T>, w: nat, h: nat)
  {
    |b| == h && forall y :: 0 <= y < h ==> |b[y]| == w
  }

  predicate InBounds(w: int, h: int, p: Pos)
  {
    0 <= p.x < w && 0 <= p.y < h
  }

  function At<T>(b: Grid<T>, p: Pos): T
    requires 0 <= p.y < |b| && 0 <= p.x < |b[p.y]|
  {
    b[p.y][p.x]
  }

  /** `b[p.y][p.x] = v` as a new grid. */
  function Put<T>(b: Grid<T>, p: Pos, v: T): (r: Grid<T>)
    requires 0 <= p.y < |b| && 0 <= p.x < |b[p.y]|
    ensures |r| == |b| && forall y :: 0 <= y < |b| ==> |r[y]| == |b[y]|
    ensures At(r, p) == v
    ensures forall q: Pos :: 0 <= q.y < |b| && 0 <= q.x < |b[q.y]| && q != p ==> At(r, q) == At(b, q)
  {
    b[p.y := b[p.y][p.x := v]]
  }

  /** A grid of the given shape with every cell equal to `v`. */
  function Filled<T>(w: nat, h: nat, v: T): (r: Grid<T>)
    ensures Shape(r, w, h)
    ensures forall p :: InBounds(w, h, p) ==> At(r, p) == v
  {
    seq(h, _ => seq(w, _ => v))
  }

  /** Two grids of the same shape that agree on every cell are equal. */
  lemma GridExt<T>(a: Grid<T>, b: Grid<T>, w: nat, h: nat)
    requires Shape(a, w, h) && Shape(b, w, h)
    requires forall p :: InBounds(w, h, p) ==> At(a, p) == At(b, p)
    ensures a == b
  {
    forall y | 0 <= y < h ensures a[y] == b[y] {
      forall x | 0 <= x < w ensures a[y][x] == b[y][x] {
        assert At(a, Pos(x, y)) == At(b, Pos(x, y));
      }
    }
  }

  // ---------------------------------------------------------------------
  // Mine layout

  /** The positions of `b` that hold a mine. */
  function MineCells(b: Grid<Cell>, w: nat, h: nat): set<Pos>
    requires Shape(b, w, h)
  {
    set x, y | 0 <= x < w && 0 <= y < h && b[y][x] == Mine :: Pos(x, y)
  }

  lemma MineCellsMember(b: Grid<Cell>, w: nat, h: nat, p: Pos)
    requires Shape(b, w, h)
    ensures p in MineCells(b, w, h) <==> InBounds(w, h, p) && At(b, p) == Mine
  {
    if InBounds(w, h, p) && At(b, p) == Mine {
      assert p == Pos(p.x, p.y);
    }
  }

  lemma PutNonMineKeepsMines(b: Grid<Cell>, w: nat, h: nat, p: Pos, v: Cell)
    requires Shape(b, w, h) && InBounds(w, h, p)
    requires At(b, p) != Mine && v != Mine
    ensures Shape(Put(b, p, v), w, h)
    ensures MineCells(Put(b, p, v), w, h) == MineCells(b, w, h)
  {
    var b' := Put(b, p, v);
    forall q | true
      ensures q in MineCells(b', w, h) <==> q in MineCells(b, w, h)
    {
      MineCellsMember(b, w, h, q);
      MineCellsMember(b', w, h, q);
    }
  }

  lemma PutMineAddsMine(b: Grid<Cell>, w: nat, h: nat, p: Pos)
    requires Shape(b, w, h) && InBounds(w, h, p)
    ensures Shape(Put(b, p, Mine), w, h)
    ensures MineCells(Put(b, p, Mine), w, h) == MineCells(b, w, h) + {p}
  {
    var b' := Put(b, p, Mine);
    forall q | true
      ensures q in MineCells(b', w, h) <==> q in MineCells(b, w, h) + {p}
    {
      MineCellsMember(b, w, h, q);
      MineCellsMember(b', w, h, q);
    }
  }

  /** q is one of p's 8 neighbours. */
  predicate Adjacent(p: Pos, q: Pos)
  {
    p != q && -1 <= q.x - p.x <= 1 && -1 <= q.y - p.y <= 1
  }

  /** The mines among p's 8 neighbours: the brute-force reference for a count. */
  function MinesAround(mines: set<Pos>, p: Pos): set<Pos>
  {
    set q | q in mines && Adjacent(p, q)
  }

  /** The offsets the counting and flood-fill loops visit, in their order:
      the x offset in the outer loop, the y offset in the inner one. */
  const Offsets: seq<Pos> := [Pos(-1, -1), Pos(-1, 0), Pos(-1, 1),
                              Pos(0, -1), Pos(0, 0), Pos(0, 1),
                              Pos(1, -1), Pos(1, 0), Pos(1, 1)]

  function OffsetIndex(dx: int, dy: int): int
  {
    3 * (dx + 1) + (dy + 1)
  }

  lemma OffsetAt(dx: int, dy: int)
    requires -1 <= dx <= 1 && -1 <= dy <= 1
    ensures 0 <= OffsetIndex(dx, dy) < |Offsets|
    ensures Offsets[OffsetIndex(dx, dy)] == Pos(dx, dy)
  {
  }

  function Shift(p: Pos, o: Pos): Pos
  {
    Pos(p.x + o.x, p.y + o.y)
  }

  /** How many of the offsets lead from p to a mine, counted one offset at a time. */
  function CountAt(mines: set<Pos>, p: Pos, offs: seq<Pos>): nat
  {
    if offs == [] then 0
    else CountAt(mines, p, offs[..|offs| - 1]) + (if Shift(p, offs[|offs| - 1]) in mines then 1 else 0)
  }

  /** The mines the offsets lead to. */
  function MinesAt(mines: set<Pos>, p: Pos, offs: seq<Pos>): set<Pos>
  {
    set o | o in offs && Shift(p, o) in mines :: Shift(p, o)
  }

  lemma {:induction false} CountAtIsCardinality(mines: set<Pos>, p: Pos, offs: seq<Pos>)
    requires forall i, j :: 0 <= i < j < |offs| ==> offs[i] != offs[j]
    ensures CountAt(mines, p, offs) == |MinesAt(mines, p, offs)|
  {
    if offs != [] {
      var init, last := offs[..|offs| - 1], offs[|offs| - 1];
      assert offs == init + [last];
      assert last !in init;
      CountAtIsCardinality(mines, p, init);
      MinesAtSnoc(mines, p, init, last);
    }
  }

  /** One more offset adds at most the one cell it leads to, and only when
      no earlier offset already led there. */
  lemma MinesAtSnoc(mines: set<Pos>, p: Pos, init: seq<Pos>, last: Pos)
    requires last !in init
    ensures Shift(p, last) !in MinesAt(mines, p, init)
    ensures MinesAt(mines, p, init + [last])
         == MinesAt(mines, p, init) + (if Shift(p, last) in mines then {Shift(p, last)} else {})
  {
    var offs := init + [last];
    forall q | q in MinesAt(mines, p, offs)
      ensures q in MinesAt(mines, p, init) || q == Shift(p, last)
    {
      var o :| o in offs && Shift(p, o) in mines && q == Shift(p, o);
      if o != last {
        assert o in init;
      }
    }
    forall o | o in init ensures Shift(p, o) != Shift(p, last) {
      assert o != last;
    }
  }

  lemma MinesAtOffsetsAround(mines: set<Pos>, p: Pos)
    requires p !in mines
    ensures MinesAt(mines, p, Offsets) == MinesAround(mines, p)
  {
    forall q | q in MinesAround(mines, p)
      ensures q in MinesAt(mines, p, Offsets)
    {
      var o := Pos(q.x - p.x, q.y - p.y);
      OffsetAt(o.x, o.y);
      assert Shift(p, o) == q;
    }
  }

  lemma {:induction false} CountAtBelowLength(mines: set<Pos>, p: Pos, offs: seq<Pos>)
    requires p !in mines && Pos(0, 0) in offs
    ensures CountAt(mines, p, offs) <= |offs| - 1
  {
    var init, last := offs[..|offs| - 1], offs[|offs| - 1];
    assert offs == init + [last];
    if last == Pos(0, 0) {
      CountAtAtMostLength(mines, p, init);
    } else {
      CountAtBelowLength(mines, p, init);
    }
  }

  lemma {:induction false} CountAtAtMostLength(mines: set<Pos>, p: Pos, offs: seq<Pos>)
    ensures CountAt(mines, p, offs) <= |offs|
  {
    if offs != [] {
      CountAtAtMostLength(mines, p, offs[..|offs| - 1]);
    }
  }

  /** A non-mine cell has between 0 and 8 mines around it, and the count over
      the source's nine offsets is exactly that number. */
  lemma CountAtOffsets(mines: set<Pos>, p: Pos)
    requires p !in mines
    ensures CountAt(mines, p, Offsets) == |MinesAround(mines, p)| <= 8
  {
    CountAtIsCardinality(mines, p, Offsets);
    MinesAtOffsetsAround(mines, p);
    assert Offsets[4] == Pos(0, 0);
    CountAtBelowLength(mines, p, Offsets);
  }

  /** Every mine cell is "mine" and every other cell holds the number of mines
      among its in-bounds 8 neighbours. */
  ghost predicate CountsCorrect(b: Grid<Cell>, w: nat, h: nat)
    requires Shape(b, w, h)
  {
    forall p :: InBounds(w, h, p) ==>
      At(b, p) == Mine || At(b, p) == Count(|MinesAround(MineCells(b, w, h), p)|)
  }

  /** Every count on a correctly counted board lies in 0..8. */
  lemma CountsAtMostEight(b: Grid<Cell>, w: nat, h: nat, p: Pos)
    requires Shape(b, w, h) && CountsCorrect(b, w, h) && InBounds(w, h, p) && At(b, p).Count?
    ensures At(b, p).n <= 8
  {
    MineCellsMember(b, w, h, p);
    CountAtOffsets(MineCells(b, w, h), p);
  }

  /** A zero cell has no mine among its in-bounds neighbours. */
  lemma ZeroHasNoMineAround(b: Grid<Cell>, w: nat, h: nat, p: Pos, q: Pos)
    requires Shape(b, w, h) && CountsCorrect(b, w, h)
    requires InBounds(w, h, p) && At(b, p) == Count(0)
    requires InBounds(w, h, q) && Adjacent(p, q)
    ensures At(b, q) != Mine
  {
    MineCellsMember(b, w, h, q);
    assert q in MineCells(b, w, h) ==> q in MinesAround(MineCells(b, w, h), p);
  }

  // ---------------------------------------------------------------------
  // Construction

  /** The distinct cells among the draws. */
  function Drawn(draws: seq<Pos>): set<Pos>
  {
    set d | d in draws
  }

  /** The placement loop: each draw plays the part of the pair of
      `random.randint` calls; a draw that hits a mine is skipped and the next
      one tried, until `numMines` distinct cells are mines. */
  method PlaceMines(w: nat, h: nat, numMines: nat, draws: seq<Pos>) returns (b: Grid<Cell>, used: nat)
    requires forall i :: 0 <= i < |draws| ==> InBounds(w, h, draws[i])
    requires numMines <= |Drawn(draws)|
    ensures Shape(b, w, h) && OnlyMinesOrUnset(b, w, h)
    ensures used <= |draws|
    ensures MineCells(b, w, h) == Drawn(draws[..used])
    ensures |MineCells(b, w, h)| == numMines
    ensures used > 0 ==> |Drawn(draws[..used - 1])| < numMines
  {
    b := Filled(w, h, Unset);
    NoMinesInitially(w, h);
    var placed: nat := 0;
    used := 0;
    while placed < numMines
      invariant PlacementInvariant(b, w, h, numMines, draws, placed, used)
      decreases |draws| - used
    {
      PlacementStep(b, w, h, numMines, draws, placed, used);
      var d := draws[used];
      if At(b, d) != Mine {
        b := Put(b, d, Mine);
        placed := placed + 1;
      }
      used := used + 1;
    }
  }

  /** What holds after `used` draws of the placement loop, `placed` of them
      having hit a fresh cell. */
  ghost predicate PlacementInvariant(b: Grid<Cell>, w: nat, h: nat, numMines: nat, draws: seq<Pos>, placed: nat, used: nat)
  {
    && used <= |draws|
    && Shape(b, w, h) && OnlyMinesOrUnset(b, w, h)
    && MineCells(b, w, h) == Drawn(draws[..used])
    && placed == |MineCells(b, w, h)| <= numMines
    && (used > 0 ==> |Drawn(draws[..used - 1])| < numMines)
  }

  lemma PlacementStep(b: Grid<Cell>, w: nat, h: nat, numMines: nat, draws: seq<Pos>, placed: nat, used: nat)
    requires forall i :: 0 <= i < |draws| ==> InBounds(w, h, draws[i])
    requires numMines <= |Drawn(draws)|
    requires PlacementInvariant(b, w, h, numMines, draws, placed, used) && placed < numMines
    ensures used < |draws| && InBounds(w, h, draws[used])
    ensures var d := draws[used];
      if At(b, d) == Mine then PlacementInvariant(b, w, h, numMines, draws, placed, used + 1)
      else PlacementInvariant(Put(b, d, Mine), w, h, numMines, draws, placed + 1, used + 1)
  {
    assert draws[..|draws|] == draws;
    var d := draws[used];
    DrawnStep(draws, used);
    PlaceStep(b, w, h, d);
    assert draws[..used + 1 - 1] == draws[..used];
  }

  ghost predicate OnlyMinesOrUnset(b: Grid<Cell>, w: nat, h: nat)
    requires Shape(b, w, h)
  {
    forall p :: InBounds(w, h, p) ==> At(b, p) == Mine || At(b, p) == Unset
  }

  /** One round of the placement loop adds the drawn cell to the mines, and
      the count grows exactly when that cell was not a mine yet. */
  lemma PlaceStep(b: Grid<Cell>, w: nat, h: nat, d: Pos)
    requires Shape(b, w, h) && OnlyMinesOrUnset(b, w, h) && InBounds(w, h, d)
    ensures var b' := if At(b, d) == Mine then b else Put(b, d, Mine);
      && Shape(b', w, h) && OnlyMinesOrUnset(b', w, h)
      && MineCells(b', w, h) == MineCells(b, w, h) + {d}
      && |MineCells(b', w, h)| == |MineCells(b, w, h)| + (if At(b, d) == Mine then 0 else 1)
  {
    MineCellsMember(b, w, h, d);
    if At(b, d) == Mine {
      assert MineCells(b, w, h) + {d} == MineCells(b, w, h);
    } else {
      PutMineAddsMine(b, w, h, d);
    }
  }

  lemma NoMinesInitially(w: nat, h: nat)
    ensures MineCells(Filled(w, h, Unset), w, h) == {}
  {
    forall q | q in MineCells(Filled(w, h, Unset), w, h) ensures false {
      MineCellsMember(Filled(w, h, Unset), w, h, q);
    }
  }

  lemma DrawnStep(draws: seq<Pos>, k: nat)
    requires k < |draws|
    ensures Drawn(draws[..k + 1]) == Drawn(draws[..k]) + {draws[k]}
  {
    assert draws[..k + 1] == draws[..k] + [draws[k]];
  }

  /** The count loop for one cell: the nine offsets, the cell itself included,
      each counted when it is in bounds and a mine. */
  method CountNeighbourMines(b: Grid<Cell>, w: nat, h: nat, p: Pos) returns (count: nat)
    requires Shape(b, w, h) && InBounds(w, h, p) && At(b, p) != Mine
    ensures count == |MinesAround(MineCells(b, w, h), p)|
    ensures count <= 8
  {
    ghost var mines := MineCells(b, w, h);
    count := 0;
    for dx := -1 to 2
      invariant count == CountAt(mines, p, Offsets[..OffsetIndex(dx, -1)])
    {
      for dy := -1 to 2
        invariant count == CountAt(mines, p, Offsets[..OffsetIndex(dx, dy)])
      {
        var q := Pos(p.x + dx, p.y + dy);
        CountAtStep(mines, p, dx, dy);
        MineCellsMember(b, w, h, q);
        if 0 <= q.x < w && 0 <= q.y < h {
          if At(b, q) == Mine {
            count := count + 1;
          }
        }
      }
      assert OffsetIndex(dx, 2) == OffsetIndex(dx + 1, -1);
    }
    assert Offsets[..9] == Offsets;
    MineCellsMember(b, w, h, p);
    CountAtOffsets(mines, p);
  }

  lemma CountAtStep(mines: set<Pos>, p: Pos, dx: int, dy: int)
    requires -1 <= dx <= 1 && -1 <= dy <= 1
    ensures 0 <= OffsetIndex(dx, dy) < |Offsets|
    ensures CountAt(mines, p, Offsets[..OffsetIndex(dx, dy + 1)])
         == CountAt(mines, p, Offsets[..OffsetIndex(dx, dy)]) + (if Pos(p.x + dx, p.y + dy) in mines then 1 else 0)
  {
    var k := OffsetIndex(dx, dy);
    OffsetAt(dx, dy);
    assert OffsetIndex(dx, dy + 1) == k + 1;
    assert Offsets[..k + 1][..k] == Offsets[..k];
  }

  /** The counting pass: columns in the outer loop, rows in the inner one;
      every non-mine cell gets its neighbour count and mines stay mines. */
  method FillCounts(b0: Grid<Cell>, w: nat, h: nat) returns (b: Grid<Cell>)
    requires Shape(b0, w, h)
    ensures Shape(b, w, h)
    ensures MineCells(b, w, h) == MineCells(b0, w, h)
    ensures CountsCorrect(b, w, h)
  {
    b := b0;
    for i := 0 to w
      invariant Shape(b, w, h)
      invariant MineCells(b, w, h) == MineCells(b0, w, h)
      invariant forall p :: InBounds(w, h, p) && p.x < i ==>
        At(b, p) == Mine || At(b, p) == Count(|MinesAround(MineCells(b0, w, h), p)|)
    {
      for j := 0 to h
        invariant Shape(b, w, h)
        invariant MineCells(b, w, h) == MineCells(b0, w, h)
        invariant forall p :: InBounds(w, h, p) && (p.x < i || (p.x == i && p.y < j)) ==>
          At(b, p) == Mine || At(b, p) == Count(|MinesAround(MineCells(b0, w, h), p)|)
      {
        var p := Pos(i, j);
        if At(b, p) != Mine {
          var n := CountNeighbourMines(b, w, h, p);
          PutNonMineKeepsMines(b, w, h, p, Count(n));
          b := Put(b, p, Count(n));
        }
      }
    }
  }

  // ---------------------------------------------------------------------
  // The revealed board

  /** Every cell of `g` is hidden or shows the value of the same cell of `m`,
      and no cell shows a mine. */
  ghost predicate Consistent(m: Grid<Cell>, g: Grid<Shown>, w: nat, h: nat)
    requires Shape(m, w, h) && Shape(g, w, h)
  {
    forall p :: InBounds(w, h, p) ==>
      At(g, p) == Hidden || (At(g, p) == Revealed(At(m, p)) && At(m, p) != Mine)
  }

  /** The hidden cells of `g`. */
  function HiddenCells(g: Grid<Shown>, w: nat, h: nat): set<Pos>
    requires Shape(g, w, h)
  {
    set x, y | 0 <= x < w && 0 <= y < h && g[y][x] == Hidden :: Pos(x, y)
  }

  lemma HiddenCellsMember(g: Grid<Shown>, w: nat, h: nat, p: Pos)
    requires Shape(g, w, h)
    ensures p in HiddenCells(g, w, h) <==> InBounds(w, h, p) && At(g, p) == Hidden
  {
    if InBounds(w, h, p) && At(g, p) == Hidden {
      assert p == Pos(p.x, p.y);
    }
  }

  // ---------------------------------------------------------------------
  // Win test

  /** The game is won when no cell is both a non-mine and hidden. */
  ghost predicate Won(m: Grid<Cell>, g: Grid<Shown>, w: nat, h: nat)
    requires Shape(m, w, h) && Shape(g, w, h)
  {
    forall p :: InBounds(w, h, p) ==> At(m, p) == Mine || At(g, p) != Hidden
  }

  /** On a consistent board mines are never revealed, so the game is won
      exactly when the hidden cells are the mines. */
  lemma WonIffOnlyMinesHidden(m: Grid<Cell>, g: Grid<Shown>, w: nat, h: nat)
    requires Shape(m, w, h) && Shape(g, w, h) && Consistent(m, g, w, h)
    ensures Won(m, g, w, h) <==> HiddenCells(g, w, h) == MineCells(m, w, h)
  {
    forall p ensures p in HiddenCells(g, w, h) <==> InBounds(w, h, p) && At(g, p) == Hidden {
      HiddenCellsMember(g, w, h, p);
    }
    forall p ensures p in MineCells(m, w, h) <==> InBounds(w, h, p) && At(m, p) == Mine {
      MineCellsMember(m, w, h, p);
    }
    if HiddenCells(g, w, h) == MineCells(m, w, h) {
      forall p | InBounds(w, h, p) ensures At(m, p) == Mine || At(g, p) != Hidden {
        assert p in HiddenCells(g, w, h) <==> p in MineCells(m, w, h);
      }
    }
  }

  /** `is_game_won`: columns in the outer loop, rows in the inner one, stopping
      at the first hidden non-mine cell. */
  method IsGameWon(m: Grid<Cell>, g: Grid<Shown>, w: nat, h: nat) returns (won: bool)
    requires Shape(m, w, h) && Shape(g, w, h)
    ensures won <==> Won(m, g, w, h)
  {
    for i := 0 to w
      invariant forall p :: InBounds(w, h, p) && p.x < i ==> At(m, p) == Mine || At(g, p) != Hidden
    {
      for j := 0 to h
        invariant forall p :: InBounds(w, h, p) && (p.x < i || (p.x == i && p.y < j)) ==>
          At(m, p) == Mine || At(g, p) != Hidden
      {
        if At(m, Pos(i, j)) != Mine && At(g, Pos(i, j)) == Hidden {
          return false;
        }
      }
    }
    return true;
  }

  // ---------------------------------------------------------------------
  // Room for the mines

  /** All positions of a w x h grid, row by row. */
  function AllCells(w: nat, h: nat): set<Pos>
  {
    if h == 0 then {} else AllCells(w, h - 1) + RowCells(w, h - 1)
  }

  function RowCells(w: nat, y: int): set<Pos>
  {
    set x | 0 <= x < w :: Pos(x, y)
  }

  lemma {:induction false} AllCellsMember(w: nat, h: nat, p: Pos)
    ensures p in AllCells(w, h) <==> InBounds(w, h, p)
  {
    if h > 0 {
      AllCellsMember(w, h - 1, p);
      assert p in RowCells(w, h - 1) <==> 0 <= p.x < w && p.y == h - 1;
    }
  }

  lemma {:induction false} RowCellsSize(w: nat, y: int)
    ensures |RowCells(w, y)| == w
  {
    if w > 0 {
      RowCellsSize(w - 1, y);
      assert RowCells(w, y) == RowCells(w - 1, y) + {Pos(w - 1, y)};
    }
  }

  lemma {:induction false} AllCellsSize(w: nat, h: nat)
    ensures |AllCells(w, h)| == w * h
  {
    if h > 0 {
      AllCellsSize(w, h - 1);
      RowCellsSize(w, h - 1);
      RowIsNew(w, h - 1);
      DisjointUnionSize(AllCells(w, h - 1), RowCells(w, h - 1));
      assert w * h == w * (h - 1) + w;
    }
  }

  /** Row y is not among the rows above it. */
  lemma RowIsNew(w: nat, y: nat)
    ensures AllCells(w, y) * RowCells(w, y) == {}
  {
    forall p | p in AllCells(w, y) ensures p.y < y {
      AllCellsMember(w, y, p);
    }
  }

  lemma DisjointUnionSize<T>(a: set<T>, b: set<T>)
    requires a * b == {}
    ensures |a + b| == |a| + |b|
  {
    forall x | x in b ensures x !in a {
      assert x !in a * b;
    }
    assert (a + b) - a == b;
  }

  /** Placement can only finish when the grid has room for the mines: draws
      that stay in bounds never name more than width * height distinct cells,
      so the loop of the source never ends when num_mines > width * height. */
  lemma PlacementNeedsRoom(w: nat, h: nat, numMines: nat, draws: seq<Pos>)
    requires forall i :: 0 <= i < |draws| ==> InBounds(w, h, draws[i])
    requires numMines <= |Drawn(draws)|
    ensures numMines <= w * h
  {
    assert Drawn(draws) <= AllCells(w, h) by {
      forall d | d in Drawn(draws) ensures d in AllCells(w, h) {
        AllCellsMember(w, h, d);
      }
    }
    AllCellsSize(w, h);
    SubsetSize(Drawn(draws), AllCells(w, h));
  }

  lemma SubsetSize<T>(a: set<T>, b: set<T>)
    requires a <= b
    ensures |a| <= |b|
  {
    assert b == a + (b - a);
  }
}
