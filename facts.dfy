/** The facts `write_to_file` hands to the answer-set solver: the board size,
    then one danger level per revealed cell, 1-indexed, rows top to bottom
    and each row left to right. */
module Facts {
  import opened Board
  import opened Strings

  datatype Fact = BoardSize(width: nat, height: nat) | DangerLevel(x: nat, y: nat, v: Cell)

  // ---------------------------------------------------------------------
  // Which facts, in which order

  /** The danger levels of row y, columns 0 .. cols - 1. */
  function RowFacts(m: Grid<Cell>, g: Grid<Shown>, w: nat, h: nat, y: nat, cols: nat): seq<Fact>
    requires Shape(m, w, h) && Shape(g, w, h) && y < h && cols <= w
  {
    if cols == 0 then []
    else
      var p := Pos(cols - 1, y);
      RowFacts(m, g, w, h, y, cols - 1) + (if At(g, p) != Hidden then [DangerLevel(cols, y + 1, At(m, p))] else [])
  }

  /** The danger levels of rows 0 .. rows - 1. */
  function DangerFacts(m: Grid<Cell>, g: Grid<Shown>, w: nat, h: nat, rows: nat): seq<Fact>
    requires Shape(m, w, h) && Shape(g, w, h) && rows <= h
  {
    if rows == 0 then [] else DangerFacts(m, g, w, h, rows - 1) + RowFacts(m, g, w, h, rows - 1, w)
  }

  /** Every fact written for the board, in the order the loops write them. */
  function BoardFacts(m: Grid<Cell>, g: Grid<Shown>, w: nat, h: nat): seq<Fact>
    requires Shape(m, w, h) && Shape(g, w, h)
  {
    [BoardSize(w, h)] + DangerFacts(m, g, w, h, h)
  }

  /** f names, 1-indexed, a revealed cell of the board and its mine-board value. */
  predicate Reports(m: Grid<Cell>, g: Grid<Shown>, w: nat, h: nat, f: Fact)
    requires Shape(m, w, h) && Shape(g, w, h)
  {
    && f.DangerLevel? && 1 <= f.x <= w && 1 <= f.y <= h
    && At(g, Pos(f.x - 1, f.y - 1)) != Hidden && f.v == At(m, Pos(f.x - 1, f.y - 1))
  }

  /** Row-major order of danger levels: by row, then by column. */
  predicate Precedes(a: Fact, b: Fact)
  {
    a.DangerLevel? && b.DangerLevel? && (a.y < b.y || (a.y == b.y && a.x < b.x))
  }

  /** Facts in row-major order, each strictly before the next. */
  predicate Ordered(s: seq<Fact>)
  {
    forall i, j :: 0 <= i < j < |s| ==> Precedes(s[i], s[j])
  }

  /** Each danger level of row y names a revealed cell of that row among the first `cols`. */
  lemma {:induction false} RowFactsSound(m: Grid<Cell>, g: Grid<Shown>, w: nat, h: nat, y: nat, cols: nat)
    requires Shape(m, w, h) && Shape(g, w, h) && y < h && cols <= w
    ensures forall f :: f in RowFacts(m, g, w, h, y, cols) ==> Reports(m, g, w, h, f) && f.y == y + 1 && f.x <= cols
  {
    if cols > 0 {
      RowFactsSound(m, g, w, h, y, cols - 1);
    }
  }

  lemma {:induction false} RowFactsOrdered(m: Grid<Cell>, g: Grid<Shown>, w: nat, h: nat, y: nat, cols: nat)
    requires Shape(m, w, h) && Shape(g, w, h) && y < h && cols <= w
    ensures Ordered(RowFacts(m, g, w, h, y, cols))
  {
    if cols > 0 {
      RowFactsOrdered(m, g, w, h, y, cols - 1);
      RowFactsSound(m, g, w, h, y, cols - 1);
      var r := RowFacts(m, g, w, h, y, cols - 1);
      forall k | 0 <= k < |r| ensures r[k] in r && r[k].DangerLevel? && r[k].x < cols && r[k].y == y + 1 {
      }
    }
  }

  lemma {:induction false} RowFactsComplete(m: Grid<Cell>, g: Grid<Shown>, w: nat, h: nat, y: nat, cols: nat)
    requires Shape(m, w, h) && Shape(g, w, h) && y < h && cols <= w
    ensures forall x :: 0 <= x < cols && At(g, Pos(x, y)) != Hidden ==>
      DangerLevel(x + 1, y + 1, At(m, Pos(x, y))) in RowFacts(m, g, w, h, y, cols)
  {
    if cols > 0 {
      RowFactsComplete(m, g, w, h, y, cols - 1);
    }
  }

  lemma {:induction false} DangerFactsSound(m: Grid<Cell>, g: Grid<Shown>, w: nat, h: nat, rows: nat)
    requires Shape(m, w, h) && Shape(g, w, h) && rows <= h
    ensures forall f :: f in DangerFacts(m, g, w, h, rows) ==> Reports(m, g, w, h, f) && f.y <= rows
  {
    if rows > 0 {
      DangerFactsSound(m, g, w, h, rows - 1);
      RowFactsSound(m, g, w, h, rows - 1, w);
      var a, b := DangerFacts(m, g, w, h, rows - 1), RowFacts(m, g, w, h, rows - 1, w);
      forall f | f in a + b ensures Reports(m, g, w, h, f) && f.y <= rows {
        if f !in a {
          assert f in b;
        }
      }
    }
  }

  lemma ConcatOrdered(a: seq<Fact>, b: seq<Fact>)
    requires Ordered(a) && Ordered(b)
    requires forall i, j :: 0 <= i < |a| && 0 <= j < |b| ==> Precedes(a[i], b[j])
    ensures Ordered(a + b)
  {
    forall i, j | 0 <= i < j < |a + b| ensures Precedes((a + b)[i], (a + b)[j]) {
      if j < |a| {
        assert (a + b)[i] == a[i] && (a + b)[j] == a[j];
      } else if |a| <= i {
        assert (a + b)[i] == b[i - |a|] && (a + b)[j] == b[j - |a|];
      } else {
        assert (a + b)[i] == a[i] && (a + b)[j] == b[j - |a|];
      }
    }
  }

  lemma RowFactsInRow(m: Grid<Cell>, g: Grid<Shown>, w: nat, h: nat, y: nat)
    requires Shape(m, w, h) && Shape(g, w, h) && y < h
    ensures forall k :: 0 <= k < |RowFacts(m, g, w, h, y, w)| ==>
      RowFacts(m, g, w, h, y, w)[k].DangerLevel? && RowFacts(m, g, w, h, y, w)[k].y == y + 1
  {
    RowFactsSound(m, g, w, h, y, w);
    var r := RowFacts(m, g, w, h, y, w);
    forall k | 0 <= k < |r| ensures r[k] in r {
    }
  }

  lemma DangerFactsAbove(m: Grid<Cell>, g: Grid<Shown>, w: nat, h: nat, rows: nat)
    requires Shape(m, w, h) && Shape(g, w, h) && rows <= h
    ensures forall k :: 0 <= k < |DangerFacts(m, g, w, h, rows)| ==>
      DangerFacts(m, g, w, h, rows)[k].DangerLevel? && DangerFacts(m, g, w, h, rows)[k].y <= rows
  {
    DangerFactsSound(m, g, w, h, rows);
    var d := DangerFacts(m, g, w, h, rows);
    forall k | 0 <= k < |d| ensures d[k] in d {
    }
  }

  lemma {:induction false} DangerFactsOrdered(m: Grid<Cell>, g: Grid<Shown>, w: nat, h: nat, rows: nat)
    requires Shape(m, w, h) && Shape(g, w, h) && rows <= h
    ensures Ordered(DangerFacts(m, g, w, h, rows))
  {
    if rows > 0 {
      DangerFactsOrdered(m, g, w, h, rows - 1);
      DangerFactsAbove(m, g, w, h, rows - 1);
      RowFactsOrdered(m, g, w, h, rows - 1, w);
      RowFactsInRow(m, g, w, h, rows - 1);
      ConcatOrdered(DangerFacts(m, g, w, h, rows - 1), RowFacts(m, g, w, h, rows - 1, w));
    }
  }

  lemma {:induction false} DangerFactsComplete(m: Grid<Cell>, g: Grid<Shown>, w: nat, h: nat, rows: nat)
    requires Shape(m, w, h) && Shape(g, w, h) && rows <= h
    ensures forall p :: InBounds(w, h, p) && p.y < rows && At(g, p) != Hidden ==>
      DangerLevel(p.x + 1, p.y + 1, At(m, p)) in DangerFacts(m, g, w, h, rows)
  {
    if rows > 0 {
      DangerFactsComplete(m, g, w, h, rows - 1);
      RowFactsComplete(m, g, w, h, rows - 1, w);
      var a, b := DangerFacts(m, g, w, h, rows - 1), RowFacts(m, g, w, h, rows - 1, w);
      forall p | InBounds(w, h, p) && p.y < rows && At(g, p) != Hidden
        ensures DangerLevel(p.x + 1, p.y + 1, At(m, p)) in a + b
      {
        if p.y == rows - 1 {
          assert p == Pos(p.x, rows - 1);
          assert DangerLevel(p.x + 1, p.y + 1, At(m, p)) in b;
        }
      }
    }
  }

  /** The written facts: the board size first, then exactly the revealed
      cells, each once, in row-major order, with their mine-board values;
      hidden cells are never written. */
  lemma BoardFactsSpec(m: Grid<Cell>, g: Grid<Shown>, w: nat, h: nat)
    requires Shape(m, w, h) && Shape(g, w, h)
    ensures |BoardFacts(m, g, w, h)| >= 1 && BoardFacts(m, g, w, h)[0] == BoardSize(w, h)
    ensures forall f :: f in BoardFacts(m, g, w, h)[1..] ==> Reports(m, g, w, h, f)
    ensures Ordered(BoardFacts(m, g, w, h)[1..])
    ensures forall p :: InBounds(w, h, p) && At(g, p) != Hidden ==>
      DangerLevel(p.x + 1, p.y + 1, At(m, p)) in BoardFacts(m, g, w, h)[1..]
  {
    DangerFactsSound(m, g, w, h, h);
    DangerFactsOrdered(m, g, w, h, h);
    DangerFactsComplete(m, g, w, h, h);
    assert BoardFacts(m, g, w, h)[1..] == DangerFacts(m, g, w, h, h);
  }

  // ---------------------------------------------------------------------
  // The lines as text

  function CellText(v: Cell): (r: string)
    ensures |r| >= 1 && forall k :: 0 <= k < |r| ==> r[k] != ',' && r[k] != '\n'
  {
    match v
    case Count(n) => NatToString(n)
    case Mine => "mine"
    case Unset => "None"
  }

  /** One line of the fact file, as the format strings of `write_to_file` produce it. */
  function FactText(f: Fact): (r: string)
    ensures |r| >= 1 && r[|r| - 1] == '\n' && forall k :: 0 <= k < |r| - 1 ==> r[k] != '\n'
  {
    match f
    case BoardSize(w, h) => "board_size(" + NatToString(w) + ", " + NatToString(h) + ").\n"
    case DangerLevel(x, y, v) => "danger_level(" + NatToString(x) + "," + NatToString(y) + "," + CellText(v) + ").\n"
  }

  lemma RowFactsStep(m: Grid<Cell>, g: Grid<Shown>, w: nat, h: nat, y: nat, x: nat)
    requires Shape(m, w, h) && Shape(g, w, h) && y < h && x < w
    ensures RowFacts(m, g, w, h, y, x + 1) == RowFacts(m, g, w, h, y, x) +
      (if At(g, Pos(x, y)) != Hidden then [DangerLevel(x + 1, y + 1, At(m, Pos(x, y)))] else [])
  {
  }

  /** The loops of `write_to_file`; the facts come out in the order of the
      `file.write` calls, the file holding their texts one after the other. */
  method WriteFacts(m: Grid<Cell>, g: Grid<Shown>, w: nat, h: nat) returns (facts: seq<Fact>)
    requires Shape(m, w, h) && Shape(g, w, h)
    ensures facts == BoardFacts(m, g, w, h)
  {
    facts := [BoardSize(w, h)];
    for col := 0 to h
      invariant facts == [BoardSize(w, h)] + DangerFacts(m, g, w, h, col)
    {
      ghost var before := facts;
      for row := 0 to w
        invariant facts == before + RowFacts(m, g, w, h, col, row)
      {
        if At(g, Pos(row, col)) != Hidden {
          var f := DangerLevel(row + 1, col + 1, At(m, Pos(row, col)));
          assert facts + [f] == before + (RowFacts(m, g, w, h, col, row) + [f]);
          facts := facts + [f];
        }
        RowFactsStep(m, g, w, h, col, row);
      }
      assert facts == [BoardSize(w, h)] + (DangerFacts(m, g, w, h, col) + RowFacts(m, g, w, h, col, w));
    }
  }

  // ---------------------------------------------------------------------
  // Reading a line back

  predicate AllDigits(s: string)
  {
    |s| >= 1 && forall k :: 0 <= k < |s| ==> IsDigit(s[k])
  }

  function ParseCell(s: string): Option<Cell>
  {
    if s == "mine" then Some(Mine)
    else if s == "None" then Some(Unset)
    else if AllDigits(s) then Some(Count(ParseNat(s)))
    else None
  }

  function ParseFact(s: string): Option<Fact>
  {
    if |s| >= 14 && s[..11] == "board_size(" && s[|s| - 3..] == ").\n" then
      var parts := Split(s[11..|s| - 3], ',');
      if |parts| == 2 && AllDigits(parts[0]) && |parts[1]| >= 1 && parts[1][0] == ' ' && AllDigits(parts[1][1..])
      then Some(BoardSize(ParseNat(parts[0]), ParseNat(parts[1][1..])))
      else None
    else if |s| >= 16 && s[..13] == "danger_level(" && s[|s| - 3..] == ").\n" then
      var parts := Split(s[13..|s| - 3], ',');
      if |parts| == 3 && AllDigits(parts[0]) && AllDigits(parts[1]) && ParseCell(parts[2]).Some?
      then Some(DangerLevel(ParseNat(parts[0]), ParseNat(parts[1]), ParseCell(parts[2]).value))
      else None
    else None
  }

  lemma NatTextHasNoComma(n: nat)
    ensures ',' !in NatToString(n) && ' ' !in NatToString(n)
    ensures AllDigits(NatToString(n))
  {
    var s := NatToString(n);
    forall k | 0 <= k < |s| ensures s[k] != ',' && s[k] != ' ' {
      assert IsDigit(s[k]);
    }
  }

  lemma ParseCellText(v: Cell)
    ensures ',' !in CellText(v)
    ensures ParseCell(CellText(v)) == Some(v)
  {
    match v
    case Count(n) =>
      NatTextHasNoComma(n);
      ParseNatToString(n);
      assert NatToString(n) != "mine" by { assert IsDigit(NatToString(n)[0]); }
      assert NatToString(n) != "None" by { assert IsDigit(NatToString(n)[0]); }
    case Mine =>
    case Unset =>
  }

  /** A string built as prefix + middle + suffix gives its three parts back. */
  lemma Framed(s: string, pre: string, mid: string, post: string)
    requires s == pre + mid + post
    ensures |s| == |pre| + |mid| + |post|
    ensures s[..|pre|] == pre && s[|s| - |post|..] == post && s[|pre|..|s| - |post|] == mid
  {
  }

  lemma ParseBoardSizeParts(s: string, a: string, b: string)
    requires s == "board_size(" + (a + [','] + (" " + b)) + ").\n"
    requires Split(a + [','] + (" " + b), ',') == [a, " " + b] && AllDigits(a) && AllDigits(b)
    ensures ParseFact(s) == Some(BoardSize(ParseNat(a), ParseNat(b)))
  {
    Framed(s, "board_size(", a + [','] + (" " + b), ").\n");
    assert (" " + b)[1..] == b;
  }

  lemma ParseDangerLevelParts(s: string, a: string, b: string, c: string, v: Cell)
    requires s == "danger_level(" + (a + [','] + b + [','] + c) + ").\n"
    requires Split(a + [','] + b + [','] + c, ',') == [a, b, c]
    requires AllDigits(a) && AllDigits(b) && ParseCell(c) == Some(v)
    ensures ParseFact(s) == Some(DangerLevel(ParseNat(a), ParseNat(b), v))
  {
    Framed(s, "danger_level(", a + [','] + b + [','] + c, ").\n");
    assert s[..11] != "board_size(" by { assert s[..11][0] == s[..13][0] == 'd'; }
  }

  lemma BoardSizeRegroup(a: string, b: string)
    ensures "board_size(" + a + ", " + b + ").\n" == "board_size(" + (a + [','] + (" " + b)) + ").\n"
  {
    assert ", " + b == [','] + (" " + b);
    assert a + ", " + b == a + [','] + (" " + b);
  }

  lemma DangerLevelRegroup(a: string, b: string, c: string)
    ensures "danger_level(" + a + "," + b + "," + c + ").\n"
         == "danger_level(" + (a + [','] + b + [','] + c) + ").\n"
  {
  }

  /** The board size line is "board_size(" and the two numbers, split by ", ". */
  lemma BoardSizeFields(w: nat, h: nat)
    ensures FactText(BoardSize(w, h)) == "board_size(" + (NatToString(w) + [','] + (" " + NatToString(h))) + ").\n"
    ensures Split(NatToString(w) + [','] + (" " + NatToString(h)), ',') == [NatToString(w), " " + NatToString(h)]
  {
    var a, b := NatToString(w), NatToString(h);
    NatTextHasNoComma(w);
    NatTextHasNoComma(h);
    SplitCut(a, " " + b, ',');
    SplitFree(" " + b, ',');
    BoardSizeRegroup(a, b);
  }

  /** A danger level line is "danger_level(" and its three fields, split by ",". */
  lemma DangerLevelFields(x: nat, y: nat, v: Cell)
    ensures FactText(DangerLevel(x, y, v))
         == "danger_level(" + (NatToString(x) + [','] + NatToString(y) + [','] + CellText(v)) + ").\n"
    ensures Split(NatToString(x) + [','] + NatToString(y) + [','] + CellText(v), ',')
         == [NatToString(x), NatToString(y), CellText(v)]
  {
    NatTextHasNoComma(x);
    NatTextHasNoComma(y);
    ParseCellText(v);
    SplitThree(NatToString(x), NatToString(y), CellText(v), ',');
    DangerLevelRegroup(NatToString(x), NatToString(y), CellText(v));
  }

  lemma ParseBoardSizeText(w: nat, h: nat)
    ensures ParseFact(FactText(BoardSize(w, h))) == Some(BoardSize(w, h))
  {
    BoardSizeFields(w, h);
    NatTextHasNoComma(w);
    NatTextHasNoComma(h);
    ParseBoardSizeParts(FactText(BoardSize(w, h)), NatToString(w), NatToString(h));
    ParseNatToString(w);
    ParseNatToString(h);
  }

  lemma ParseDangerLevelText(x: nat, y: nat, v: Cell)
    ensures ParseFact(FactText(DangerLevel(x, y, v))) == Some(DangerLevel(x, y, v))
  {
    DangerLevelFields(x, y, v);
    NatTextHasNoComma(x);
    NatTextHasNoComma(y);
    ParseCellText(v);
    ParseDangerLevelParts(FactText(DangerLevel(x, y, v)), NatToString(x), NatToString(y), CellText(v), v);
    ParseNatToString(x);
    ParseNatToString(y);
  }

  /** Every written line reads back as the fact it was written for, so
      different facts give different lines. */
  lemma ParseFactText(f: Fact)
    ensures ParseFact(FactText(f)) == Some(f)
  {
    match f
    case BoardSize(w, h) => ParseBoardSizeText(w, h);
    case DangerLevel(x, y, v) => ParseDangerLevelText(x, y, v);
  }
}
