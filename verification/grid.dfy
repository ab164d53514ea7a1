/** The board: the list of every cell, built column by column as
    `Grid.__init__` does (main.py:46-56). */
module GridModel {
  import opened Geometry

  /** Cells (x, 0) .. (x, n - 1) of column x: what the inner loop of
      `Grid.__init__` appends after n rounds. */
  function Column(x: int, n: nat): seq<Pos> {
    if n == 0 then [] else Column(x, n - 1) + [Pos(x, n - 1)]
  }

  /** Columns 0 .. w - 1 of a board h cells high, in the order the nested
      loops append them. */
  function Columns(w: nat, h: nat): seq<Pos> {
    if w == 0 then [] else Columns(w - 1, h) + Column(w - 1, h)
  }

  lemma {:induction false} ColumnMembership(x: int, n: nat, c: Pos)
    ensures c in Column(x, n) <==> c.x == x && 0 <= c.y < n
  {
    if n > 0 {
      ColumnMembership(x, n - 1, c);
    }
  }

  lemma {:induction false} ColumnShape(x: int, n: nat)
    ensures |Column(x, n)| == n
    ensures Distinct(Column(x, n))
  {
    if n > 0 {
      ColumnShape(x, n - 1);
      ColumnMembership(x, n - 1, Pos(x, n - 1));
      DistinctConcat(Column(x, n - 1), [Pos(x, n - 1)]);
    }
  }

  /** Every listed cell lies on the board. */
  lemma {:induction false} ColumnsSound(w: nat, h: nat, c: Pos)
    ensures c in Columns(w, h) ==> 0 <= c.x < w && 0 <= c.y < h
  {
    if w > 0 {
      ColumnsSound(w - 1, h, c);
      ColumnMembership(w - 1, h, c);
    }
  }

  /** Every cell of the board is listed. */
  lemma {:induction false} ColumnsComplete(w: nat, h: nat, c: Pos)
    ensures 0 <= c.x < w && 0 <= c.y < h ==> c in Columns(w, h)
  {
    if 0 <= c.x < w && 0 <= c.y < h {
      var left, last := Columns(w - 1, h), Column(w - 1, h);
      if c.x < w - 1 {
        ColumnsComplete(w - 1, h, c);
        assert c in left;
      } else {
        ColumnMembership(w - 1, h, c);
        assert c in last;
      }
    }
  }

  /** The list has w * h entries. */
  lemma {:induction false} ColumnsLength(w: nat, h: nat)
    ensures |Columns(w, h)| == w * h
  {
    if w > 0 {
      ColumnsLength(w - 1, h);
      ColumnShape(w - 1, h);
      assert (w - 1) * h + h == w * h;
    }
  }

  /** The first w columns share no cell with column w. */
  lemma ColumnsBeforeColumn(w: nat, h: nat)
    ensures forall c :: c in Columns(w, h) ==> c !in Column(w, h)
  {
    forall c | c in Columns(w, h)
      ensures c !in Column(w, h)
    {
      ColumnsSound(w, h, c);
      ColumnMembership(w, h, c);
    }
  }

  /** No cell is listed twice. */
  lemma {:induction false} ColumnsDistinct(w: nat, h: nat)
    ensures Distinct(Columns(w, h))
  {
    if w > 0 {
      ColumnsDistinct(w - 1, h);
      ColumnShape(w - 1, h);
      ColumnsBeforeColumn(w - 1, h);
      DistinctConcat(Columns(w - 1, h), Column(w - 1, h));
    }
  }

  /** A list holding each cell of a w x h board exactly once. */
  ghost predicate IsBoardOf(cells: seq<Pos>, w: nat, h: nat) {
    |cells| == w * h
    && Distinct(cells)
    && forall c {:trigger c in cells} :: c in cells <==> 0 <= c.x < w && 0 <= c.y < h
  }

  /** A list holding each cell of the 20 x 20 board exactly once. */
  ghost predicate IsBoard(cells: seq<Pos>) {
    IsBoardOf(cells, NB_BLOCK_X, NB_BLOCK_Y)
  }

  /** The list the nested loops build for a w x h board holds each of
      its cells exactly once. */
  lemma ColumnsBoard(w: nat, h: nat)
    ensures IsBoardOf(Columns(w, h), w, h)
  {
    ColumnsLength(w, h);
    ColumnsDistinct(w, h);
    forall c
      ensures c in Columns(w, h) <==> 0 <= c.x < w && 0 <= c.y < h
    {
      ColumnsSound(w, h, c);
      ColumnsComplete(w, h, c);
    }
  }

  /** The nested loops of `Grid.__init__`: x outer, y inner. */
  method EnumerateCells(w: nat, h: nat) returns (cells: seq<Pos>)
    ensures cells == Columns(w, h)
  {
    cells := [];
    var x := 0;
    while x < w
      invariant 0 <= x <= w
      invariant cells == Columns(x, h)
    {
      var y := 0;
      while y < h
        invariant 0 <= y <= h
        invariant cells == Columns(x, h) + Column(x, y)
      {
        cells := cells + [Pos(x, y)];
        y := y + 1;
      }
      x := x + 1;
    }
  }

  /** The list `Grid.__init__` stores for a w x h board. The sizes stay
      symbolic here, so that no proof about the 20 x 20 board unfolds the
      400-cell list. */
  method BoardCells(w: nat, h: nat) returns (cells: seq<Pos>)
    ensures IsBoardOf(cells, w, h)
  {
    cells := EnumerateCells(w, h);
    ColumnsBoard(w, h);
  }

  /** The grid object; only its list of cells is modelled. Its order is
      the one `EnumerateCells` states; the game only relies on the list
      holding every cell once. */
  class Grid {
    const gridTuples: seq<Pos>

    constructor ()
      ensures IsBoard(gridTuples) && |gridTuples| == 400
    {
      var cells := BoardCells(NB_BLOCK_X, NB_BLOCK_Y);
      gridTuples := cells;
    }
  }
}
