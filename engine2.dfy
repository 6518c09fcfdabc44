/** The second engine version (minesweeper_engine2.py): the board of the
    first version plus a recursive flood fill from zero cells and an
    opening move. */
module Engine2 {
  import opened Board

  // ---------------------------------------------------------------------
  // Flood-fill vocabulary, over board values

  /** Every cell revealed in `g0` is still revealed, with the same value, in `g1`. */
  ghost predicate Keeps(g0: Grid<Shown>, g1: Grid<Shown>, w: nat, h: nat)
    requires Shape(g0, w, h) && Shape(g1, w, h)
  {
    forall p :: InBounds(w, h, p) && At(g0, p) != Hidden ==> At(g1, p) == At(g0, p)
  }

  /** p is a revealed zero cell that still has a hidden neighbour. */
  ghost predicate Open(g: Grid<Shown>, w: nat, h: nat, p: Pos)
    requires Shape(g, w, h)
  {
    && InBounds(w, h, p) && At(g, p) == Revealed(Count(0))
    && exists q :: Adjacent(p, q) && InBounds(w, h, q) && At(g, q) == Hidden
  }

  /** Every revealed zero cell has all its in-bounds neighbours revealed. */
  ghost predicate ZeroClosed(g: Grid<Shown>, w: nat, h: nat)
    requires Shape(g, w, h)
  {
    forall p :: !Open(g, w, h, p)
  }

  /** p was hidden in `g0` and is revealed in `g1`. */
  ghost predicate Newly(g0: Grid<Shown>, g1: Grid<Shown>, w: nat, h: nat, p: Pos)
    requires Shape(g0, w, h) && Shape(g1, w, h)
  {
    InBounds(w, h, p) && At(g0, p) == Hidden && At(g1, p) != Hidden
  }

  /** `path` leads from t to q the way the flood fill travels over the board
      `g0`: each step goes to an adjacent on-board cell hidden in `g0`, and
      every cell the path leaves is an on-board zero cell. */
  ghost predicate FloodPath(g0: Grid<Shown>, m: Grid<Cell>, w: nat, h: nat, t: Pos, q: Pos, path: seq<Pos>)
    requires Shape(g0, w, h) && Shape(m, w, h)
  {
    && |path| >= 1 && path[0] == t && path[|path| - 1] == q
    && (forall k :: 1 <= k < |path| ==> InBounds(w, h, path[k]) && At(g0, path[k]) == Hidden)
    && (forall k :: 0 <= k < |path| - 1 ==> InBounds(w, h, path[k]) && At(m, path[k]) == Count(0))
    && (forall k, l :: 0 <= k && l == k + 1 && l < |path| ==> Adjacent(path[k], path[l]))
  }

  /** Every cell newly revealed between `g0` and `g1` is reached from the
      target t by a flood path over `g0`. */
  ghost predicate Reached(g0: Grid<Shown>, g1: Grid<Shown>, m: Grid<Cell>, w: nat, h: nat, t: Pos)
    requires Shape(g0, w, h) && Shape(g1, w, h) && Shape(m, w, h)
  {
    forall q :: Newly(g0, g1, w, h, q) ==> exists path :: FloodPath(g0, m, w, h, t, q, path)
  }

  /** A flood path from n, over a board `g` that keeps what `g0` revealed,
      extends to a flood path from a zero neighbour t of n over `g0`. */
  lemma {:induction false} PathPrepend(g0: Grid<Shown>, g: Grid<Shown>, m: Grid<Cell>, w: nat, h: nat,
                                       t: Pos, n: Pos, q: Pos, path: seq<Pos>)
    requires Shape(g0, w, h) && Shape(g, w, h) && Shape(m, w, h) && Keeps(g0, g, w, h)
    requires InBounds(w, h, t) && At(m, t) == Count(0) && Adjacent(t, n)
    requires InBounds(w, h, n) && At(g0, n) == Hidden
    requires FloodPath(g, m, w, h, n, q, path)
    ensures FloodPath(g0, m, w, h, t, q, [t] + path)
  {
    var r := [t] + path;
    forall k | 1 <= k < |r| ensures InBounds(w, h, r[k]) && At(g0, r[k]) == Hidden {
      assert r[k] == path[k - 1];
    }
    forall k | 0 <= k < |r| - 1 ensures InBounds(w, h, r[k]) && At(m, r[k]) == Count(0) {
      if k > 0 { assert r[k] == path[k - 1]; }
    }
    forall k, l | 0 <= k && l == k + 1 && l < |r| ensures Adjacent(r[k], r[l]) {
      if k > 0 { assert r[k] == path[k - 1] && r[l] == path[l - 1]; }
    }
  }

  /** What `reveal_cell(t.x, t.y, recursive)` does to the revealed board `g0`
      (giving `g1`) when the mine board is `m`. */
  ghost predicate RevealSpec(g0: Grid<Shown>, g1: Grid<Shown>, m: Grid<Cell>, w: nat, h: nat,
                             t: Pos, recursive: bool)
    requires Shape(g0, w, h) && Shape(m, w, h) && InBounds(w, h, t)
  {
    && Shape(g1, w, h) && Consistent(m, g1, w, h)
    // revealing a mine changes nothing
    && (At(m, t) == Mine ==> g1 == g0)
    // a non-recursive reveal of a revealed cell changes nothing
    && (At(g0, t) != Hidden && !recursive ==> g1 == g0)
    // otherwise the target shows its value and, if it is zero, all its neighbours are revealed
    && (At(m, t) != Mine && (recursive || At(g0, t) == Hidden) ==>
          At(g1, t) == Revealed(At(m, t)) && !Open(g1, w, h, t))
    // a non-zero target is the only cell written
    && (At(m, t) != Mine && At(m, t) != Count(0) && (recursive || At(g0, t) == Hidden) ==>
          g1 == Put(g0, t, Revealed(At(m, t))))
    // no revealed cell is hidden again or changes value
    && Keeps(g0, g1, w, h)
    // no revealed zero cell gains a hidden neighbour that it did not have
    && (forall p :: Open(g1, w, h, p) ==> Open(g0, w, h, p))
    && Reached(g0, g1, m, w, h, t)
  }

  /** A reveal keeps every revealed zero cell's neighbourhood revealed. */
  lemma RevealKeepsZeroClosed(g0: Grid<Shown>, g1: Grid<Shown>, m: Grid<Cell>, w: nat, h: nat,
                              t: Pos, recursive: bool)
    requires Shape(g0, w, h) && Shape(m, w, h) && InBounds(w, h, t)
    requires RevealSpec(g0, g1, m, w, h, t, recursive) && ZeroClosed(g0, w, h)
    ensures ZeroClosed(g1, w, h)
  {
  }

  /** Along a flood path from t, every cell is revealed in any board `g2`
      that reveals t, leaves t without a hidden neighbour and opens no zero
      cell that was not open in `g0`. */
  lemma {:induction false} PathRevealed(g0: Grid<Shown>, g2: Grid<Shown>, m: Grid<Cell>, w: nat, h: nat,
                                        t: Pos, q: Pos, path: seq<Pos>, k: nat)
    requires Shape(g0, w, h) && Shape(g2, w, h) && Shape(m, w, h) && Consistent(m, g2, w, h)
    requires InBounds(w, h, t) && At(m, t) == Count(0) && At(g2, t) != Hidden && !Open(g2, w, h, t)
    requires forall p :: Open(g2, w, h, p) ==> Open(g0, w, h, p)
    requires FloodPath(g0, m, w, h, t, q, path) && k < |path|
    ensures At(g2, path[k]) != Hidden
    decreases k
  {
    if k > 0 {
      PathRevealed(g0, g2, m, w, h, t, q, path, k - 1);
      assert Adjacent(path[k - 1], path[k]);
      assert !Open(g2, w, h, path[k - 1]);
    }
  }

  /** A cell that one reveal of a zero target uncovers, every other reveal
      of that target uncovers too. */
  lemma NewlyInBoth(g0: Grid<Shown>, g1: Grid<Shown>, g2: Grid<Shown>, m: Grid<Cell>, w: nat, h: nat,
                    t: Pos, recursive: bool, p: Pos)
    requires Shape(g0, w, h) && Shape(m, w, h) && InBounds(w, h, t)
    requires RevealSpec(g0, g1, m, w, h, t, recursive) && RevealSpec(g0, g2, m, w, h, t, recursive)
    requires At(m, t) == Count(0) && (recursive || At(g0, t) == Hidden)
    requires Newly(g0, g1, w, h, p)
    ensures At(g2, p) != Hidden
  {
    var path :| FloodPath(g0, m, w, h, t, p, path);
    PathRevealed(g0, g2, m, w, h, t, p, path, |path| - 1);
  }

  /** `RevealSpec` leaves no choice: it determines the new board. */
  lemma RevealSpecUnique(g0: Grid<Shown>, g1: Grid<Shown>, g2: Grid<Shown>, m: Grid<Cell>, w: nat, h: nat,
                         t: Pos, recursive: bool)
    requires Shape(g0, w, h) && Shape(m, w, h) && InBounds(w, h, t)
    requires RevealSpec(g0, g1, m, w, h, t, recursive) && RevealSpec(g0, g2, m, w, h, t, recursive)
    ensures g1 == g2
  {
    if At(m, t) == Count(0) && (recursive || At(g0, t) == Hidden) {
      forall p | InBounds(w, h, p) ensures At(g1, p) == At(g2, p) {
        if At(g0, p) == Hidden && At(g1, p) != Hidden {
          NewlyInBoth(g0, g1, g2, m, w, h, t, recursive, p);
        }
        if At(g0, p) == Hidden && At(g2, p) != Hidden {
          NewlyInBoth(g0, g2, g1, m, w, h, t, recursive, p);
        }
      }
      GridExt(g1, g2, w, h);
    }
  }

  /** The loop state while the neighbours of the zero target t are visited. */
  ghost predicate FloodInvariant(g0: Grid<Shown>, g: Grid<Shown>, m: Grid<Cell>, w: nat, h: nat, t: Pos)
    requires Shape(g0, w, h) && Shape(m, w, h)
  {
    && Shape(g, w, h) && Consistent(m, g, w, h) && Keeps(g0, g, w, h)
    && InBounds(w, h, t) && At(g, t) == Revealed(Count(0))
    && (forall p :: Open(g, w, h, p) ==> Open(g0, w, h, p) || p == t)
    && Reached(g0, g, m, w, h, t)
  }

  lemma KeepsTransitive(g0: Grid<Shown>, g1: Grid<Shown>, g2: Grid<Shown>, w: nat, h: nat)
    requires Shape(g0, w, h) && Shape(g1, w, h) && Shape(g2, w, h)
    requires Keeps(g0, g1, w, h) && Keeps(g1, g2, w, h)
    ensures Keeps(g0, g2, w, h)
  {
  }

  /** Revealing the zero target starts the flood. */
  lemma FloodStart(g0: Grid<Shown>, m: Grid<Cell>, w: nat, h: nat, t: Pos)
    requires Shape(g0, w, h) && Shape(m, w, h) && Consistent(m, g0, w, h)
    requires InBounds(w, h, t) && At(m, t) == Count(0)
    ensures FloodInvariant(g0, Put(g0, t, Revealed(Count(0))), m, w, h, t)
  {
    var g := Put(g0, t, Revealed(Count(0)));
    forall p | Open(g, w, h, p) ensures Open(g0, w, h, p) || p == t {
      if p != t {
        var q :| Adjacent(p, q) && InBounds(w, h, q) && At(g, q) == Hidden;
        assert At(g0, q) == Hidden;
      }
    }
    forall q | Newly(g0, g, w, h, q) ensures exists path :: FloodPath(g0, m, w, h, t, q, path) {
      assert FloodPath(g0, m, w, h, t, q, [t]);
    }
  }

  /** Revealing a hidden non-zero neighbour of the zero target keeps the flood
      invariant; the neighbour is not a mine because the target counts none. */
  lemma FloodDirect(g0: Grid<Shown>, g: Grid<Shown>, m: Grid<Cell>, w: nat, h: nat, t: Pos, n: Pos)
    requires Shape(g0, w, h) && Shape(m, w, h) && CountsCorrect(m, w, h)
    requires FloodInvariant(g0, g, m, w, h, t)
    requires InBounds(w, h, n) && Adjacent(t, n) && At(g, n) == Hidden && At(m, n) != Count(0)
    ensures At(m, n) != Mine
    ensures FloodInvariant(g0, Put(g, n, Revealed(At(m, n))), m, w, h, t)
    ensures Keeps(g, Put(g, n, Revealed(At(m, n))), w, h)
  {
    ZeroHasNoMineAround(m, w, h, t, n);
    var g' := Put(g, n, Revealed(At(m, n)));
    DirectOpens(g0, g, w, h, t, n, Revealed(At(m, n)));
    DirectReached(g0, g, m, w, h, t, n, Revealed(At(m, n)));
  }

  lemma DirectOpens(g0: Grid<Shown>, g: Grid<Shown>, w: nat, h: nat, t: Pos, n: Pos, v: Shown)
    requires Shape(g0, w, h) && Shape(g, w, h) && InBounds(w, h, n) && At(g, n) == Hidden
    requires v != Hidden && v != Revealed(Count(0))
    requires forall p :: Open(g, w, h, p) ==> Open(g0, w, h, p) || p == t
    ensures forall p :: Open(Put(g, n, v), w, h, p) ==> Open(g0, w, h, p) || p == t
  {
    var g' := Put(g, n, v);
    forall p | Open(g', w, h, p) ensures Open(g0, w, h, p) || p == t {
      var q :| Adjacent(p, q) && InBounds(w, h, q) && At(g', q) == Hidden;
      assert Open(g, w, h, p);
    }
  }

  lemma DirectReached(g0: Grid<Shown>, g: Grid<Shown>, m: Grid<Cell>, w: nat, h: nat, t: Pos, n: Pos, v: Shown)
    requires Shape(g0, w, h) && Shape(g, w, h) && Shape(m, w, h) && InBounds(w, h, n)
    requires InBounds(w, h, t) && At(m, t) == Count(0) && Adjacent(t, n)
    requires Reached(g0, g, m, w, h, t) && Keeps(g0, g, w, h)
    requires At(g, n) == Hidden
    ensures Reached(g0, Put(g, n, v), m, w, h, t)
  {
    var g' := Put(g, n, v);
    forall q | Newly(g0, g', w, h, q) ensures exists path :: FloodPath(g0, m, w, h, t, q, path) {
      if q == n {
        assert FloodPath(g0, m, w, h, t, q, [t, n]);
      } else {
        assert Newly(g0, g, w, h, q);
      }
    }
  }

  /** After the recursive call on a hidden zero neighbour n, the flood
      invariant for the target t still holds. */
  lemma FloodRecursive(g0: Grid<Shown>, g: Grid<Shown>, g': Grid<Shown>, m: Grid<Cell>, w: nat, h: nat,
                       t: Pos, n: Pos)
    requires Shape(g0, w, h) && Shape(m, w, h)
    requires FloodInvariant(g0, g, m, w, h, t)
    requires InBounds(w, h, n) && Adjacent(t, n) && At(g, n) == Hidden && At(m, n) == Count(0)
    requires RevealSpec(g, g', m, w, h, n, true)
    ensures FloodInvariant(g0, g', m, w, h, t)
  {
    KeepsTransitive(g0, g, g', w, h);
    assert At(g0, n) == Hidden;
    forall q | Newly(g0, g', w, h, q) ensures exists path :: FloodPath(g0, m, w, h, t, q, path) {
      if !Newly(g0, g, w, h, q) {
        assert Newly(g, g', w, h, q);
        var path :| FloodPath(g, m, w, h, n, q, path);
        PathPrepend(g0, g, m, w, h, t, n, q, path);
      }
    }
  }

  /** Once every neighbour of the zero target is revealed, the reveal is done. */
  lemma FloodEnd(g0: Grid<Shown>, g: Grid<Shown>, m: Grid<Cell>, w: nat, h: nat, t: Pos, recursive: bool)
    requires Shape(g0, w, h) && Shape(m, w, h)
    requires FloodInvariant(g0, g, m, w, h, t) && At(m, t) == Count(0)
    requires recursive || At(g0, t) == Hidden
    requires Visited(g, w, h, t, 2, -1)
    ensures RevealSpec(g0, g, m, w, h, t, recursive)
  {
    assert !Open(g, w, h, t);
  }

  /** Revealing a hidden (or, recursively, any) non-zero, non-mine target only
      writes that cell. */
  lemma RevealOne(g0: Grid<Shown>, m: Grid<Cell>, w: nat, h: nat, t: Pos, recursive: bool)
    requires Shape(g0, w, h) && Shape(m, w, h) && Consistent(m, g0, w, h) && InBounds(w, h, t)
    requires At(m, t) != Mine && At(m, t) != Count(0) && (recursive || At(g0, t) == Hidden)
    ensures RevealSpec(g0, Put(g0, t, Revealed(At(m, t))), m, w, h, t, recursive)
  {
    var g := Put(g0, t, Revealed(At(m, t)));
    forall p | Open(g, w, h, p) ensures Open(g0, w, h, p) {
      var q :| Adjacent(p, q) && InBounds(w, h, q) && At(g, q) == Hidden;
      assert At(g0, q) == Hidden;
    }
    forall q | Newly(g0, g, w, h, q) ensures exists path :: FloodPath(g0, m, w, h, t, q, path) {
      assert FloodPath(g0, m, w, h, t, q, [t]);
    }
  }

  /** The neighbours of t at offsets before (i, j), in the loops' order, are revealed. */
  ghost predicate Visited(g: Grid<Shown>, w: nat, h: nat, t: Pos, i: int, j: int)
    requires Shape(g, w, h)
  {
    forall q :: Adjacent(t, q) && InBounds(w, h, q) && (q.x - t.x < i || (q.x - t.x == i && q.y - t.y < j)) ==>
      At(g, q) != Hidden
  }

  lemma VisitStep(g: Grid<Shown>, g': Grid<Shown>, w: nat, h: nat, t: Pos, i: int, j: int)
    requires Shape(g, w, h) && Shape(g', w, h) && Keeps(g, g', w, h) && Visited(g, w, h, t, i, j)
    requires InBounds(w, h, Pos(t.x + i, t.y + j)) ==> At(g', Pos(t.x + i, t.y + j)) != Hidden
    ensures Visited(g', w, h, t, i, j + 1)
  {
  }

  /** The state of the neighbour loops at offset (i, j): the flood invariant,
      nothing revealed at loop entry (`gE`) lost, and the neighbours before
      (i, j) visited. */
  ghost predicate Sweep(g0: Grid<Shown>, gE: Grid<Shown>, g: Grid<Shown>, m: Grid<Cell>, w: nat, h: nat,
                        t: Pos, i: int, j: int)
    requires Shape(g0, w, h) && Shape(gE, w, h) && Shape(m, w, h)
  {
    FloodInvariant(g0, g, m, w, h, t) && Keeps(gE, g, w, h) && Visited(g, w, h, t, i, j)
  }

  /** A neighbour that is off the board or already revealed is skipped. */
  lemma SweepSkip(g0: Grid<Shown>, gE: Grid<Shown>, g: Grid<Shown>, m: Grid<Cell>, w: nat, h: nat,
                  t: Pos, i: int, j: int)
    requires Shape(g0, w, h) && Shape(gE, w, h) && Shape(m, w, h)
    requires Sweep(g0, gE, g, m, w, h, t, i, j)
    requires InBounds(w, h, Pos(t.x + i, t.y + j)) ==> At(g, Pos(t.x + i, t.y + j)) != Hidden
    ensures Sweep(g0, gE, g, m, w, h, t, i, j + 1)
  {
    VisitStep(g, g, w, h, t, i, j);
  }

  /** A hidden non-zero neighbour is revealed directly. */
  lemma SweepDirect(g0: Grid<Shown>, gE: Grid<Shown>, g: Grid<Shown>, m: Grid<Cell>, w: nat, h: nat,
                    t: Pos, i: int, j: int)
    requires Shape(g0, w, h) && Shape(gE, w, h) && Shape(m, w, h) && CountsCorrect(m, w, h)
    requires Sweep(g0, gE, g, m, w, h, t, i, j) && -1 <= i <= 1 && -1 <= j <= 1
    requires InBounds(w, h, Pos(t.x + i, t.y + j)) && At(g, Pos(t.x + i, t.y + j)) == Hidden
    requires At(m, Pos(t.x + i, t.y + j)) != Count(0)
    ensures Sweep(g0, gE, Put(g, Pos(t.x + i, t.y + j), Revealed(At(m, Pos(t.x + i, t.y + j)))), m, w, h, t, i, j + 1)
  {
    var n := Pos(t.x + i, t.y + j);
    assert Adjacent(t, n);
    FloodDirect(g0, g, m, w, h, t, n);
    var g' := Put(g, n, Revealed(At(m, n)));
    KeepsTransitive(gE, g, g', w, h);
    VisitStep(g, g', w, h, t, i, j);
  }

  /** A hidden zero neighbour is revealed by the recursive call, which leaves `g'`. */
  lemma SweepRecursive(g0: Grid<Shown>, gE: Grid<Shown>, g: Grid<Shown>, g': Grid<Shown>, m: Grid<Cell>,
                       w: nat, h: nat, t: Pos, i: int, j: int)
    requires Shape(g0, w, h) && Shape(gE, w, h) && Shape(m, w, h)
    requires Sweep(g0, gE, g, m, w, h, t, i, j) && -1 <= i <= 1 && -1 <= j <= 1
    requires InBounds(w, h, Pos(t.x + i, t.y + j)) && At(g, Pos(t.x + i, t.y + j)) == Hidden
    requires At(m, Pos(t.x + i, t.y + j)) == Count(0)
    requires RevealSpec(g, g', m, w, h, Pos(t.x + i, t.y + j), true)
    ensures Sweep(g0, gE, g', m, w, h, t, i, j + 1)
  {
    var n := Pos(t.x + i, t.y + j);
    assert Adjacent(t, n);
    FloodRecursive(g0, g, g', m, w, h, t, n);
    KeepsTransitive(gE, g, g', w, h);
    VisitStep(g, g', w, h, t, i, j);
  }

  lemma HiddenShrinks(g0: Grid<Shown>, g: Grid<Shown>, w: nat, h: nat, t: Pos)
    requires Shape(g0, w, h) && Shape(g, w, h) && Keeps(g0, g, w, h)
    requires InBounds(w, h, t) && At(g, t) != Hidden
    ensures HiddenCells(g, w, h) <= HiddenCells(g0, w, h)
    ensures At(g0, t) == Hidden ==> HiddenCells(g, w, h) < HiddenCells(g0, w, h)
  {
    forall p | p in HiddenCells(g, w, h) ensures p in HiddenCells(g0, w, h) {
      HiddenCellsMember(g, w, h, p);
      HiddenCellsMember(g0, w, h, p);
    }
    HiddenCellsMember(g, w, h, t);
    HiddenCellsMember(g0, w, h, t);
  }

  // ---------------------------------------------------------------------
  // The opening move: the first zero cell in row-major order

  /** q comes before p when rows are read top to bottom, each left to right. */
  predicate RowMajorBefore(q: Pos, p: Pos)
  {
    q.y < p.y || (q.y == p.y && q.x < p.x)
  }

  /** The first zero cell at or after (col, row) in row-major order. */
  function FirstZeroFrom(m: Grid<Cell>, w: nat, h: nat, row: nat, col: nat): (r: Option<Pos>)
    requires Shape(m, w, h)
    ensures r.Some? ==> InBounds(w, h, r.value) && At(m, r.value) == Count(0)
    decreases h - row, w - col
  {
    if row >= h then None
    else if col >= w then FirstZeroFrom(m, w, h, row + 1, 0)
    else if At(m, Pos(col, row)) == Count(0) then Some(Pos(col, row))
    else FirstZeroFrom(m, w, h, row, col + 1)
  }

  function FirstZero(m: Grid<Cell>, w: nat, h: nat): (r: Option<Pos>)
    requires Shape(m, w, h)
    ensures r.Some? ==> InBounds(w, h, r.value) && At(m, r.value) == Count(0)
  {
    FirstZeroFrom(m, w, h, 0, 0)
  }

  /** The scan from (col, row) finds the first zero cell not before (col, row),
      and finds nothing exactly when there is none. */
  lemma {:induction false} FirstZeroFromIsFirst(m: Grid<Cell>, w: nat, h: nat, row: nat, col: nat)
    requires Shape(m, w, h)
    ensures FirstZeroFrom(m, w, h, row, col).None? <==>
      forall q :: InBounds(w, h, q) && !RowMajorBefore(q, Pos(col, row)) ==> At(m, q) != Count(0)
    ensures FirstZeroFrom(m, w, h, row, col).Some? ==>
      var p := FirstZeroFrom(m, w, h, row, col).value;
      && InBounds(w, h, p) && At(m, p) == Count(0) && !RowMajorBefore(p, Pos(col, row))
      && forall q :: InBounds(w, h, q) && !RowMajorBefore(q, Pos(col, row)) && RowMajorBefore(q, p) ==>
           At(m, q) != Count(0)
    decreases h - row, w - col
  {
    if row >= h {
    } else if col >= w {
      FirstZeroFromIsFirst(m, w, h, row + 1, 0);
    } else if At(m, Pos(col, row)) == Count(0) {
    } else {
      FirstZeroFromIsFirst(m, w, h, row, col + 1);
    }
  }

  /** `first_move` looks for the first zero cell, reading rows top to bottom. */
  lemma FirstZeroIsFirst(m: Grid<Cell>, w: nat, h: nat)
    requires Shape(m, w, h)
    ensures FirstZero(m, w, h).None? <==> forall q :: InBounds(w, h, q) ==> At(m, q) != Count(0)
    ensures FirstZero(m, w, h).Some? ==>
      var p := FirstZero(m, w, h).value;
      && InBounds(w, h, p) && At(m, p) == Count(0)
      && forall q :: InBounds(w, h, q) && RowMajorBefore(q, p) ==> At(m, q) != Count(0)
  {
    FirstZeroFromIsFirst(m, w, h, 0, 0);
  }

  /** What the loops of `first_move` do as written: the outer loop runs `row`
      over range(width) and the inner one `col` over range(height), and the
      cell read is mine_board[row][col]. */
  datatype Scan = Found(p: Pos) | NoneFound | IndexError

  function ScanAsWritten(m: Grid<Cell>, w: nat, h: nat, row: nat, col: nat): (r: Scan)
    requires Shape(m, w, h)
    ensures r.Found? ==> InBounds(w, h, r.p) && At(m, r.p) == Count(0)
    decreases w - row, h - col
  {
    if row >= w then NoneFound
    else if col >= h then ScanAsWritten(m, w, h, row + 1, 0)
    else if row >= h || col >= w then IndexError
    else if At(m, Pos(col, row)) == Count(0) then Found(Pos(col, row))
    else ScanAsWritten(m, w, h, row, col + 1)
  }

  /** On a 2 x 1 board of two mines the scan as written reads row 1, which
      does not exist, where the row-by-row scan reports that there is no zero cell. */
  lemma ScanAsWrittenFailsOnWideBoard()
    ensures Shape([[Mine, Mine]], 2, 1)
    ensures ScanAsWritten([[Mine, Mine]], 2, 1, 0, 0) == IndexError
    ensures FirstZero([[Mine, Mine]], 2, 1) == None
  {
    var m := [[Mine, Mine]];
    assert ScanAsWritten(m, 2, 1, 0, 0) == ScanAsWritten(m, 2, 1, 1, 0);
  }

  /** On a square board the scan as written is the row-by-row scan. */
  lemma {:induction false} ScanAsWrittenOnSquare(m: Grid<Cell>, w: nat, row: nat, col: nat)
    requires Shape(m, w, w)
    ensures ScanAsWritten(m, w, w, row, col) ==
      match FirstZeroFrom(m, w, w, row, col)
      case None => NoneFound
      case Some(p) => Found(p)
    decreases w - row, w - col
  {
    if row >= w {
    } else if col >= w {
      ScanAsWrittenOnSquare(m, w, row + 1, 0);
    } else if At(m, Pos(col, row)) == Count(0) {
    } else {
      ScanAsWrittenOnSquare(m, w, row, col + 1);
    }
  }

  // ---------------------------------------------------------------------
  // The game

  class MinesweeperGame {
    var width: nat
    var height: nat
    var numMines: nat
    var mineBoard: Grid<Cell>
    var gameBoard: Grid<Shown>
    /** How many draws the placement loop consumed. */
    ghost var drawsUsed: nat

    ghost predicate Valid()
      reads this
    {
      && Shape(mineBoard, width, height) && Shape(gameBoard, width, height)
      && CountsCorrect(mineBoard, width, height)
      && Consistent(mineBoard, gameBoard, width, height)
    }

    /** `__init__`: mines from the draws, then the counts; nothing revealed. */
    constructor (width: nat, height: nat, numMines: nat, draws: seq<Pos>)
      requires forall i :: 0 <= i < |draws| ==> InBounds(width, height, draws[i])
      requires numMines <= |Drawn(draws)|
      ensures Valid()
      ensures this.width == width && this.height == height && this.numMines == numMines
      ensures |MineCells(mineBoard, width, height)| == numMines
      ensures drawsUsed <= |draws| && MineCells(mineBoard, width, height) == Drawn(draws[..drawsUsed])
      ensures drawsUsed > 0 ==> |Drawn(draws[..drawsUsed - 1])| < numMines
      ensures gameBoard == Filled(width, height, Hidden)
    {
      this.width := width;
      this.height := height;
      this.numMines := numMines;
      var placed, used := PlaceMines(width, height, numMines, draws);
      var counted := FillCounts(placed, width, height);
      mineBoard := counted;
      gameBoard := Filled(width, height, Hidden);
      drawsUsed := used;
    }

    /** `reveal_cell(x, y, recursive)`; returns `is_game_won()` on the new board. */
    method RevealCell(x: int, y: int, recursive: bool) returns (won: bool)
      requires Valid() && InBounds(width, height, Pos(x, y))
      modifies this`gameBoard
      ensures Valid()
      ensures RevealSpec(old(gameBoard), gameBoard, mineBoard, width, height, Pos(x, y), recursive)
      ensures won <==> Won(mineBoard, gameBoard, width, height)
      decreases HiddenCells(gameBoard, width, height), if At(gameBoard, Pos(x, y)) == Hidden then 0 else 3
    {
      var t := Pos(x, y);
      if At(mineBoard, t) == Mine {
        // the source prints "Game lost" and changes nothing
      } else if At(gameBoard, t) != Hidden && !recursive {
        // the source prints "Cannot play in an already revealed cell"
      } else {
        ghost var g0 := gameBoard;
        if At(mineBoard, t) != Count(0) {
          RevealOne(g0, mineBoard, width, height, t, recursive);
        } else {
          FloodStart(g0, mineBoard, width, height, t);
        }
        gameBoard := Put(gameBoard, t, Revealed(At(mineBoard, t)));
        if At(gameBoard, t) == Revealed(Count(0)) {
          HiddenShrinks(g0, gameBoard, width, height, t);
          RevealNeighbours(g0, x, y);
          FloodEnd(g0, gameBoard, mineBoard, width, height, t, recursive);
        }
      }
      won := IsGameWon(mineBoard, gameBoard, width, height);
    }

    /** The neighbour loops of `reveal_cell` once the target t = (x, y) shows
        zero; `g0` is the board before the target was revealed. */
    method RevealNeighbours(ghost g0: Grid<Shown>, x: int, y: int)
      requires Valid() && Shape(g0, width, height)
      requires FloodInvariant(g0, gameBoard, mineBoard, width, height, Pos(x, y))
      modifies this`gameBoard
      ensures Valid()
      ensures FloodInvariant(g0, gameBoard, mineBoard, width, height, Pos(x, y))
      ensures Visited(gameBoard, width, height, Pos(x, y), 2, -1)
      ensures Keeps(old(gameBoard), gameBoard, width, height)
      decreases HiddenCells(gameBoard, width, height), 2
    {
      var t := Pos(x, y);
      ghost var gE := gameBoard;
      for i := -1 to 2
        invariant Valid() && Sweep(g0, gE, gameBoard, mineBoard, width, height, t, i, -1)
      {
        for j := -1 to 2
          invariant Valid() && Sweep(g0, gE, gameBoard, mineBoard, width, height, t, i, j)
        {
          HiddenShrinks(gE, gameBoard, width, height, t);
          VisitNeighbour(g0, gE, x, y, i, j);
        }
      }
    }

    /** One pass of the neighbour loops, at offset (i, j) from the target
        (x, y): a revealed neighbour is skipped, a hidden zero neighbour is
        revealed recursively, any other hidden neighbour directly. */
    method VisitNeighbour(ghost g0: Grid<Shown>, ghost gE: Grid<Shown>, x: int, y: int, i: int, j: int)
      requires Valid() && Shape(g0, width, height) && Shape(gE, width, height)
      requires -1 <= i <= 1 && -1 <= j <= 1
      requires Sweep(g0, gE, gameBoard, mineBoard, width, height, Pos(x, y), i, j)
      modifies this`gameBoard
      ensures Valid() && Sweep(g0, gE, gameBoard, mineBoard, width, height, Pos(x, y), i, j + 1)
      // a neighbour off the board or already revealed is skipped
      ensures !InBounds(width, height, Pos(x + i, y + j)) || At(old(gameBoard), Pos(x + i, y + j)) != Hidden ==>
                gameBoard == old(gameBoard)
      // a hidden non-zero neighbour is the only cell written
      ensures InBounds(width, height, Pos(x + i, y + j)) && At(old(gameBoard), Pos(x + i, y + j)) == Hidden
              && At(mineBoard, Pos(x + i, y + j)) != Count(0) ==>
                gameBoard == Put(old(gameBoard), Pos(x + i, y + j), Revealed(At(mineBoard, Pos(x + i, y + j))))
      // a hidden zero neighbour is revealed recursively
      ensures InBounds(width, height, Pos(x + i, y + j)) && At(old(gameBoard), Pos(x + i, y + j)) == Hidden
              && At(mineBoard, Pos(x + i, y + j)) == Count(0) ==>
                RevealSpec(old(gameBoard), gameBoard, mineBoard, width, height, Pos(x + i, y + j), true)
      decreases HiddenCells(gameBoard, width, height), 1
    {
      var t := Pos(x, y);
      ghost var g, m, w, h := gameBoard, mineBoard, width, height;
      var n := Pos(x + i, y + j);
      if 0 <= n.x < width && 0 <= n.y < height {
        if At(gameBoard, n) != Hidden {
          SweepSkip(g0, gE, g, m, w, h, t, i, j);
          return;
        } else if At(mineBoard, n) == Count(0) {
          var _ := RevealCell(n.x, n.y, true);
          SweepRecursive(g0, gE, g, gameBoard, m, w, h, t, i, j);
        } else {
          SweepDirect(g0, gE, g, m, w, h, t, i, j);
          gameBoard := Put(gameBoard, n, Revealed(At(mineBoard, n)));
        }
      } else {
        SweepSkip(g0, gE, g, m, w, h, t, i, j);
      }
    }

    /** `first_move`, with rows in the outer loop and columns in the inner one:
        reveals the first zero cell, if there is one. */
    method FirstMove()
      requires Valid()
      modifies this`gameBoard
      ensures Valid()
      ensures FirstZero(mineBoard, width, height).None? ==> gameBoard == old(gameBoard)
      ensures FirstZero(mineBoard, width, height).Some? ==>
        RevealSpec(old(gameBoard), gameBoard, mineBoard, width, height, FirstZero(mineBoard, width, height).value, false)
    {
      ghost var first := FirstZero(mineBoard, width, height);
      var emptyCell := false;
      for row := 0 to height
        invariant Valid()
        invariant !emptyCell ==> gameBoard == old(gameBoard) && first == FirstZeroFrom(mineBoard, width, height, row, 0)
        invariant emptyCell ==> first.Some? && RevealSpec(old(gameBoard), gameBoard, mineBoard, width, height, first.value, false)
      {
        if emptyCell {
          break;
        }
        for col := 0 to width
          invariant Valid()
          invariant !emptyCell ==> gameBoard == old(gameBoard) && first == FirstZeroFrom(mineBoard, width, height, row, col)
          invariant emptyCell ==> first.Some? && RevealSpec(old(gameBoard), gameBoard, mineBoard, width, height, first.value, false)
        {
          if emptyCell {
            break;
          } else if At(mineBoard, Pos(col, row)) == Count(0) {
            emptyCell := true;
            var _ := RevealCell(col, row, false);
          }
        }
      }
    }
  }
}
