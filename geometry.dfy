/** Cells of the terminal grid, headings, and the one-cell move of the head. */
module Geometry {

  /** A terminal cell. The Rust code stores `u16`s; here they are unbounded naturals. */
  datatype Point = Point(x: nat, y: nat)

  /** The snake's heading: never diagonal, never "none". */
  datatype Direction = Up | Down | Left | Right

  /** Two cells share a side: one coordinate equal, the other off by exactly one. */
  predicate Adjacent(p: Point, q: Point) {
    (p.x == q.x && (p.y + 1 == q.y || q.y + 1 == p.y)) ||
    (p.y == q.y && (p.x + 1 == q.x || q.x + 1 == p.x))
  }

  /** The move does not subtract from a zero coordinate (the `u16` subtraction would underflow). */
  predicate CanMove(head: Point, dir: Direction) {
    (dir == Up ==> head.y > 0) && (dir == Left ==> head.x > 0)
  }

  /** The cell one step from `head` towards `dir`; Up and Left decrease a coordinate. */
  function NextHead(head: Point, dir: Direction): (r: Point)
    requires CanMove(head, dir)
    ensures Adjacent(head, r)
    ensures r.x == head.x <==> dir == Up || dir == Down
    ensures r.y < head.y <==> dir == Up
    ensures r.y > head.y <==> dir == Down
    ensures r.x < head.x <==> dir == Left
    ensures r.x > head.x <==> dir == Right
  {
    match dir
    case Up => Point(head.x, head.y - 1)
    case Down => Point(head.x, head.y + 1)
    case Left => Point(head.x - 1, head.y)
    case Right => Point(head.x + 1, head.y)
  }

  /** The heading that undoes a move along `dir`. */
  function Opposite(dir: Direction): (r: Direction)
    ensures r != dir
    ensures (r == Up || r == Down) <==> (dir == Up || dir == Down)
  {
    match dir
    case Up => Down
    case Down => Up
    case Left => Right
    case Right => Left
  }

  /** Stepping back the opposite way undoes a move. */
  lemma BackStepUndoes(head: Point, dir: Direction)
    requires CanMove(head, dir)
    ensures CanMove(NextHead(head, dir), Opposite(dir))
    ensures NextHead(NextHead(head, dir), Opposite(dir)) == head
    ensures Opposite(Opposite(dir)) == dir
  {
  }

  /** Every neighbouring cell is reached by exactly one heading, so the moves are all and only the side steps. */
  lemma {:induction false} AdjacentIsOneMove(head: Point, q: Point)
    requires Adjacent(head, q)
    ensures exists d :: CanMove(head, d) && NextHead(head, d) == q
    ensures forall d1, d2 :: CanMove(head, d1) && CanMove(head, d2) && NextHead(head, d1) == q && NextHead(head, d2) == q ==> d1 == d2
  {
    var d :=
      if q.y + 1 == head.y then Up
      else if q.y == head.y + 1 then Down
      else if q.x + 1 == head.x then Left
      else Right;
    assert CanMove(head, d) && NextHead(head, d) == q;
  }
}
