/** The food cell and its placement on a cell the snake does not occupy
    (main.py:22-43). */
module FoodModel {
  import opened Geometry
  import opened GridModel

  /** The cells of `cells` that are not in `occupied`, in their order in
      `cells`: the `food_grid` list of `generate_food`. */
  function Without(cells: seq<Pos>, occupied: seq<Pos>): seq<Pos> {
    if cells == [] then []
    else
      var rest := Without(cells[..|cells| - 1], occupied);
      var c := cells[|cells| - 1];
      if c in occupied then rest else rest + [c]
  }

  /** A cell is a candidate exactly when it is listed and not occupied. */
  lemma {:induction false} WithoutMembership(cells: seq<Pos>, occupied: seq<Pos>, c: Pos)
    ensures c in Without(cells, occupied) <==> c in cells && c !in occupied
  {
    if cells != [] {
      var init := cells[..|cells| - 1];
      WithoutMembership(init, occupied, c);
      assert cells == init + [cells[|cells| - 1]];
    }
  }

  /** Filtering a duplicate-free list keeps it duplicate-free. */
  lemma {:induction false} WithoutDistinct(cells: seq<Pos>, occupied: seq<Pos>)
    requires Distinct(cells)
    ensures Distinct(Without(cells, occupied))
  {
    if cells != [] {
      var init := cells[..|cells| - 1];
      var c := cells[|cells| - 1];
      assert Distinct(init);
      WithoutDistinct(init, occupied);
      if c !in occupied {
        WithoutMembership(init, occupied, c);
        assert c !in init;
        DistinctConcat(Without(init, occupied), [c]);
      }
    }
  }

  /** When the occupied cells are distinct and all listed, exactly
      |cells| - |occupied| candidates remain. */
  lemma WithoutCount(cells: seq<Pos>, occupied: seq<Pos>)
    requires Distinct(cells) && Distinct(occupied)
    requires forall c :: c in occupied ==> c in cells
    ensures |Without(cells, occupied)| == |cells| - |occupied|
  {
    var free := Without(cells, occupied);
    var all, taken := Elements(cells), Elements(occupied);
    WithoutDistinct(cells, occupied);
    DistinctCard(free);
    DistinctCard(cells);
    DistinctCard(occupied);
    forall c
      ensures c in Elements(free) <==> c in all - taken
    {
      WithoutMembership(cells, occupied, c);
    }
    assert Elements(free) == all - taken;
    assert taken <= all;
    assert all * taken == taken;
    assert all + taken == all;
    assert taken - all == {};
  }

  /** On the 20 x 20 board, a snake of distinct on-board cells leaves
      exactly 400 - |body| cells for the food, and none exactly when it
      covers the board. */
  lemma FreeCellCount(board: seq<Pos>, body: seq<Pos>)
    requires IsBoard(board)
    requires Distinct(body) && AllInBounds(body)
    ensures |Without(board, body)| == NB_BLOCK_X * NB_BLOCK_Y - |body|
    ensures Without(board, body) == [] <==> |body| == NB_BLOCK_X * NB_BLOCK_Y
  {
    forall c | c in body
      ensures c in board
    {
      var i :| 0 <= i < |body| && body[i] == c;
      assert InBounds(body[i]);
    }
    WithoutCount(board, body);
  }

  /** A snake of 400 distinct on-board cells covers every cell of the
      board: the only body for which no free cell is left. */
  lemma FullBodyCoversBoard(board: seq<Pos>, body: seq<Pos>)
    requires IsBoard(board)
    requires Distinct(body) && AllInBounds(body)
    requires |body| == NB_BLOCK_X * NB_BLOCK_Y
    ensures forall c :: InBounds(c) ==> c in body
  {
    FreeCellCount(board, body);
    forall c | InBounds(c)
      ensures c in body
    {
      WithoutMembership(board, body, c);
    }
  }

  /** The loop of `generate_food` that collects the free cells. */
  method FoodGrid(grid: GridModel.Grid, occupied: seq<Pos>) returns (foodGrid: seq<Pos>)
    ensures foodGrid == Without(grid.gridTuples, occupied)
  {
    foodGrid := [];
    var i := 0;
    while i < |grid.gridTuples|
      invariant 0 <= i <= |grid.gridTuples|
      invariant foodGrid == Without(grid.gridTuples[..i], occupied)
    {
      var c := grid.gridTuples[i];
      assert grid.gridTuples[..i + 1][..i] == grid.gridTuples[..i];
      if c !in occupied {
        foodGrid := foodGrid + [c];
      }
      i := i + 1;
    }
    assert grid.gridTuples[..i] == grid.gridTuples;
  }

  /** The food object: its cell is updated in place by `GenerateFood`. */
  class Food {
    var x: int
    var y: int

    constructor ()
      ensures x == 0 && y == 0
    {
      x, y := 0, 0;
    }

    function Cell(): Pos
      reads this
    {
      Pos(x, y)
    }

    /** `generate_food` (main.py:35-43): pick any free cell. `main.py`
        passes the snake and reads only its body, which is `occupied`
        here. `ok` is false where `random.choice` raises on an empty list;
        the food is then left where it was. */
    method GenerateFood(grid: GridModel.Grid, occupied: seq<Pos>) returns (ok: bool)
      modifies this
      ensures ok <==> Without(grid.gridTuples, occupied) != []
      ensures ok ==> Cell() in grid.gridTuples && Cell() !in occupied
      ensures ok && |Without(grid.gridTuples, occupied)| == 1 ==>
                Cell() == Without(grid.gridTuples, occupied)[0]
      ensures !ok ==> Cell() == old(Cell())
    {
      var foodGrid := FoodGrid(grid, occupied);
      if foodGrid == [] {
        return false;
      }
      assert foodGrid[0] in foodGrid;
      var position :| position in foodGrid;
      WithoutMembership(grid.gridTuples, occupied, position);
      x := position.x;
      y := position.y;
      ok := true;
    }
  }
}
