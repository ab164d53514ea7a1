/** The snake: a head-first list of cells and a pending-growth flag
    (main.py:63-95). */
module SnakeModel {
  import opened Geometry
  import opened FoodModel

  /** The body after one `move` by `d`: the new head goes in front and,
      unless growth is pending, the last cell is dropped. */
  function MoveBody(body: seq<Pos>, grow: bool, d: Pos): seq<Pos>
    requires |body| >= 1
  {
    var moved := [Add(body[0], d)] + body;
    if grow then moved else moved[..|moved| - 1]
  }

  /** The head lands on old head + d; without growth the rest is the old
      body less its last cell and the length is kept, with growth the rest
      is the whole old body and the length grows by one. */
  lemma MoveBodyShape(body: seq<Pos>, grow: bool, d: Pos)
    requires |body| >= 1
    ensures MoveBody(body, grow, d)[0] == Add(body[0], d)
    ensures |MoveBody(body, grow, d)| == |body| + (if grow then 1 else 0)
    ensures MoveBody(body, grow, d)[1..] == if grow then body else body[..|body| - 1]
  {
  }

  /** Every cell behind the new head was a cell of the old body. */
  lemma MoveBodyTail(body: seq<Pos>, grow: bool, d: Pos, c: Pos)
    requires |body| >= 1
    ensures c in MoveBody(body, grow, d)[1..] ==> c in body
  {
    MoveBodyShape(body, grow, d);
  }

  /** A move by one of the four unit deltas keeps the body a chain of
      side-sharing cells. */
  lemma MoveKeepsChain(body: seq<Pos>, grow: bool, d: Pos)
    requires |body| >= 1 && Chain(body) && IsDirection(d)
    ensures Chain(MoveBody(body, grow, d))
  {
    var r := MoveBody(body, grow, d);
    MoveBodyShape(body, grow, d);
    forall i | 0 <= i < |r| - 1
      ensures Adjacent(r[i], r[i + 1])
    {
      if i > 0 {
        assert r[i] == body[i - 1] && r[i + 1] == body[i];
      }
    }
  }

  class Snake {
    var head: Pos
    var body: seq<Pos>
    var grow: bool

    /** The head is the first body cell and the body never has fewer than
        the two cells it starts with. */
    ghost predicate Valid()
      reads this
    {
      |body| >= 2 && head == body[0]
    }

    /** `Snake(x, y)`: head at (x, y), one cell to its left, no growth. */
    constructor (x: int, y: int)
      ensures Valid()
      ensures head == Pos(x, y) && body == [Pos(x, y), Pos(x - 1, y)] && !grow
    {
      head := Pos(x, y);
      body := [Pos(x, y), Pos(x - 1, y)];
      grow := false;
    }

    /** `move`: the growth flag is consumed, the head advances by `d`. */
    method Move(d: Pos)
      requires Valid()
      modifies this
      ensures Valid()
      ensures head == Add(old(head), d)
      ensures body == MoveBody(old(body), old(grow), d)
      ensures !grow
    {
      head := Add(head, d);
      body := [head] + body;
      if grow {
        grow := false;
      } else {
        body := body[..|body| - 1];
      }
    }

    /** `eat_food`: growth becomes pending when the head is on the food;
        otherwise nothing changes. */
    method EatFood(food: Food)
      requires Valid()
      modifies this
      ensures Valid()
      ensures grow == (old(grow) || food.Cell() == head)
      ensures head == old(head) && body == old(body)
    {
      if food.Cell() == head {
        grow := true;
      }
    }
  }
}
