/** The game loop's mutable state and the loop body that updates it in place. */
module Game {
  import opened Geometry
  import opened Input
  import opened Rules

  class Game {
    var snake: seq<Point>
    var dir: Direction
    var food: Point

    function Current(): State
      reads this
    {
      State(snake, dir, food)
    }

    ghost predicate Valid()
      reads this
    {
      ValidState(Current())
    }

    /** The start position: a two-cell snake heading right, food five cells ahead. */
    constructor ()
      ensures Valid()
      ensures Current() == Initial()
    {
      snake := [Point(10, 10), Point(9, 10)];
      dir := Right;
      food := Point(15, 10);
    }

    /** One pass of the loop body; `terminated` says the loop breaks out. */
    method Step(sample: Sample, newFood: Point) returns (terminated: bool)
      requires Valid()
      requires InField(newFood)
      modifies this
      ensures Valid()
      ensures Outcome(Current(), terminated) == Tick(old(Current()), TickInput(sample, newFood))
    {
      TickPreservesValid(Current(), TickInput(sample, newFood));
      dir := ReadDirection(dir, sample);
      var newHead := NextHead(snake[0], dir);
      if HitsWall(newHead) {
        return true;
      }
      snake := [newHead] + snake;
      if newHead == food {
        food := newFood;
      } else {
        snake := snake[..|snake| - 1];
      }
      return false;
    }

    /** The loop: one tick per input until a wall is hit or the inputs run out. */
    method Run(ticks: seq<TickInput>) returns (played: nat, terminated: bool)
      requires Valid()
      requires FoodsInField(ticks)
      modifies this
      ensures Valid()
      ensures Play(old(Current()), ticks) == Finish(Current(), played, terminated)
    {
      ghost var start := Current();
      played, terminated := 0, false;
      while played < |ticks| && !terminated
        invariant Valid()
        invariant played <= |ticks|
        invariant !terminated ==>
          var f := Play(Current(), ticks[played..]);
          Play(start, ticks) == Finish(f.state, f.played + played, f.terminated)
        invariant terminated ==> Play(start, ticks) == Finish(Current(), played, true)
        decreases |ticks| - played
      {
        assert ticks[played..][0] == ticks[played];
        assert ticks[played..][1..] == ticks[played + 1..];
        terminated := Step(ticks[played].sample, ticks[played].food);
        played := played + 1;
      }
    }
  }
}
