/** Cells, move deltas and the board size of the Snake game, with the
    sequence facts the other modules share. */
module Geometry {

  /** Board size in cells (main.py:10). */
  const NB_BLOCK_X: nat := 20
  const NB_BLOCK_Y: nat := 20

  /** An integer pair: a board cell (column, row) or a move delta. */
  datatype Pos = Pos(x: int, y: int)

  /** The four move deltas; rows grow downwards, as on screen. */
  const LEFT := Pos(-1, 0)
  const RIGHT := Pos(1, 0)
  const UP := Pos(0, -1)
  const DOWN := Pos(0, 1)

  predicate IsDirection(d: Pos) {
    d == LEFT || d == RIGHT || d == UP || d == DOWN
  }

  function Add(p: Pos, d: Pos): Pos {
    Pos(p.x + d.x, p.y + d.y)
  }

  function Reverse(d: Pos): Pos {
    Pos(-d.x, -d.y)
  }

  predicate InBounds(c: Pos) {
    0 <= c.x < NB_BLOCK_X && 0 <= c.y < NB_BLOCK_Y
  }

  predicate AllInBounds(s: seq<Pos>) {
    forall i :: 0 <= i < |s| ==> InBounds(s[i])
  }

  function Abs(n: int): nat {
    if n < 0 then -n else n
  }

  /** Two cells that share a side. */
  predicate Adjacent(a: Pos, b: Pos) {
    Abs(a.x - b.x) + Abs(a.y - b.y) == 1
  }

  /** Every cell of `s` shares a side with the next one. */
  predicate Chain(s: seq<Pos>) {
    forall i :: 0 <= i < |s| - 1 ==> Adjacent(s[i], s[i + 1])
  }

  predicate Distinct<T(==)>(s: seq<T>) {
    forall i, j :: 0 <= i < j < |s| ==> s[i] != s[j]
  }

  function Elements<T>(s: seq<T>): set<T> {
    set x | x in s
  }

  /** Two duplicate-free sequences with no common element concatenate to a
      duplicate-free sequence. */
  lemma DistinctConcat<T>(a: seq<T>, b: seq<T>)
    requires Distinct(a) && Distinct(b)
    requires forall x :: x in a ==> x !in b
    ensures Distinct(a + b)
  {
    forall i, j | 0 <= i < j < |a + b|
      ensures (a + b)[i] != (a + b)[j]
    {
      if j < |a| {
      } else if i < |a| {
        assert (a + b)[i] in a && (a + b)[j] in b;
      } else {
        assert (a + b)[i] == b[i - |a|] && (a + b)[j] == b[j - |a|];
      }
    }
  }

  /** A duplicate-free sequence has as many elements as its set. */
  lemma {:induction false} DistinctCard<T>(s: seq<T>)
    requires Distinct(s)
    ensures |Elements(s)| == |s|
  {
    if s != [] {
      var init := s[..|s| - 1];
      assert Distinct(init);
      DistinctCard(init);
      assert s == init + [s[|s| - 1]];
      assert Elements(s) == Elements(init) + {s[|s| - 1]};
      assert s[|s| - 1] !in Elements(init);
    }
  }
}
