/** The game's state and one tick of its update, as values: the specification the `Game` class meets. */
module Rules {
  import opened Geometry
  import opened Input

  /** Food is only ever placed with 1 <= x < FoodXEnd and 1 <= y < FoodYEnd. */
  const FoodXEnd: nat := 50
  const FoodYEnd: nat := 20

  /** Snake (head first), heading and food. */
  datatype State = State(snake: seq<Point>, dir: Direction, food: Point)

  /** What the outside world supplies to a tick: the sampled input and the cell the random generator would give. */
  datatype TickInput = TickInput(sample: Sample, food: Point)

  /** The state after a tick, and whether the tick ended the game. */
  datatype Outcome = Outcome(state: State, terminated: bool)

  predicate InField(p: Point) {
    1 <= p.x < FoodXEnd && 1 <= p.y < FoodYEnd
  }

  /** Only the low edges are walls: there is no upper bound and no self-collision. */
  predicate HitsWall(p: Point) {
    p.x == 0 || p.y == 0
  }

  /** Every cell of the snake is off both low edges. */
  predicate OffWalls(snake: seq<Point>) {
    forall i :: 0 <= i < |snake| ==> snake[i].x >= 1 && snake[i].y >= 1
  }

  /** Consecutive segments share a side. */
  predicate Connected(snake: seq<Point>) {
    forall i :: 0 <= i < |snake| - 1 ==> Adjacent(snake[i], snake[i + 1])
  }

  /** The invariant every reachable state keeps. */
  predicate ValidState(s: State) {
    |s.snake| > 0 && OffWalls(s.snake) && Connected(s.snake) && InField(s.food)
  }

  /** The state before the first tick. */
  function Initial(): (s: State)
    ensures ValidState(s)
  {
    State([Point(10, 10), Point(9, 10)], Right, Point(15, 10))
  }

  /** A tick can be computed: there is a head and moving it does not leave the naturals. */
  predicate CanTick(s: State, input: TickInput) {
    |s.snake| > 0 && CanMove(s.snake[0], ReadDirection(s.dir, input.sample))
  }

  /** The cell the head moves into on this tick. */
  function Candidate(s: State, input: TickInput): Point
    requires CanTick(s, input)
  {
    NextHead(s.snake[0], ReadDirection(s.dir, input.sample))
  }

  /** One tick of the game loop: steer, move the head, stop at a wall, then grow onto the food or drop the tail. */
  function Tick(s: State, input: TickInput): (o: Outcome)
    requires CanTick(s, input)
    ensures o.state.dir == ReadDirection(s.dir, input.sample)
    ensures o.terminated <==> HitsWall(Candidate(s, input))
    ensures o.terminated ==> o.state.snake == s.snake && o.state.food == s.food
    ensures !o.terminated ==> |o.state.snake| > 0 && o.state.snake[0] == Candidate(s, input)
    ensures !o.terminated ==> (|o.state.snake| == |s.snake| + 1 <==> Candidate(s, input) == s.food)
    ensures !o.terminated ==> (|o.state.snake| == |s.snake| <==> Candidate(s, input) != s.food)
    ensures !o.terminated && Candidate(s, input) == s.food ==>
              o.state.snake[1..] == s.snake && o.state.food == input.food
    ensures !o.terminated && Candidate(s, input) != s.food ==>
              o.state.snake == [Candidate(s, input)] + s.snake[..|s.snake| - 1] && o.state.food == s.food
  {
    var dir := ReadDirection(s.dir, input.sample);
    var head := NextHead(s.snake[0], dir);
    if HitsWall(head) then
      Outcome(s.(dir := dir), true)
    else
      var grown := [head] + s.snake;
      if head == s.food then
        Outcome(State(grown, dir, input.food), false)
      else
        Outcome(State(grown[..|grown| - 1], dir, s.food), false)
  }

  /** A valid state can always tick: the head is never on a low edge, so no subtraction underflows. */
  lemma ValidCanTick(s: State, input: TickInput)
    requires ValidState(s)
    ensures CanTick(s, input)
  {
  }

  /** A tick keeps the invariant, provided the random food lies in the food range. */
  lemma TickPreservesValid(s: State, input: TickInput)
    requires ValidState(s)
    requires InField(input.food)
    ensures CanTick(s, input)
    ensures ValidState(Tick(s, input).state)
  {
  }

  /** Every regenerated food cell of the inputs is in the food range. */
  predicate FoodsInField(ticks: seq<TickInput>) {
    forall i :: 0 <= i < |ticks| ==> InField(ticks[i].food)
  }

  /** How a run of the loop ended: final state, ticks consumed (the terminating one included), and whether it hit a wall. */
  datatype Finish = Finish(state: State, played: nat, terminated: bool)

  /** The game loop over a finite supply of tick inputs; it stops at the first wall hit. */
  function Play(s: State, ticks: seq<TickInput>): (f: Finish)
    requires ValidState(s)
    requires FoodsInField(ticks)
    ensures ValidState(f.state)
    ensures 1 <= f.played <= |ticks| || (f.played == 0 && ticks == [])
    ensures !f.terminated ==> f.played == |ticks|
    decreases |ticks|
  {
    if ticks == [] then
      Finish(s, 0, false)
    else
      TickPreservesValid(s, ticks[0]);
      var o := Tick(s, ticks[0]);
      if o.terminated then
        Finish(o.state, 1, true)
      else
        var f := Play(o.state, ticks[1..]);
        Finish(f.state, f.played + 1, f.terminated)
  }

  /** The loop ends only on the first tick whose candidate head lies on a low edge, and that tick leaves snake and food alone. */
  lemma {:induction false} PlayStopsAtWall(s: State, ticks: seq<TickInput>)
    requires ValidState(s)
    requires FoodsInField(ticks)
    ensures var f := Play(s, ticks);
      f.terminated ==>
        f.played >= 1 &&
        var before := Play(s, ticks[..f.played - 1]);
        !before.terminated &&
        CanTick(before.state, ticks[f.played - 1]) &&
        HitsWall(Candidate(before.state, ticks[f.played - 1])) &&
        f.state.snake == before.state.snake && f.state.food == before.state.food
    decreases |ticks|
  {
    if ticks != [] {
      TickPreservesValid(s, ticks[0]);
      var o := Tick(s, ticks[0]);
      if !o.terminated {
        PlayStopsAtWall(o.state, ticks[1..]);
        var f := Play(o.state, ticks[1..]);
        if f.terminated {
          assert ticks[..f.played + 1 - 1][1..] == ticks[1..][..f.played - 1];
        }
      }
    }
  }

  /** Without an arrow key in any sampled input, the heading never changes, however many ticks pass. */
  lemma {:induction false} PlayHoldsHeading(s: State, ticks: seq<TickInput>)
    requires ValidState(s)
    requires FoodsInField(ticks)
    requires forall i :: 0 <= i < |ticks| ==> !Steers(ticks[i].sample)
    ensures Play(s, ticks).state.dir == s.dir
    decreases |ticks|
  {
    if ticks != [] {
      TickPreservesValid(s, ticks[0]);
      var o := Tick(s, ticks[0]);
      if !o.terminated {
        PlayHoldsHeading(o.state, ticks[1..]);
      }
    }
  }

  /** Holding Up, a head on row y climbs one row per tick and the game ends on tick y, with the head left on row 1. */
  lemma {:induction false} HoldingUpReachesWall(s: State, ticks: seq<TickInput>)
    requires ValidState(s)
    requires FoodsInField(ticks)
    requires forall i :: 0 <= i < |ticks| ==> ticks[i].sample == Received(Key(ArrowUp))
    requires |ticks| >= s.snake[0].y
    ensures Play(s, ticks).terminated
    ensures Play(s, ticks).played == s.snake[0].y
    ensures Play(s, ticks).state.snake[0] == Point(s.snake[0].x, 1)
    ensures Play(s, ticks).state.dir == Up
    decreases s.snake[0].y
  {
    TickPreservesValid(s, ticks[0]);
    var o := Tick(s, ticks[0]);
    assert Candidate(s, ticks[0]) == Point(s.snake[0].x, s.snake[0].y - 1);
    if !o.terminated {
      HoldingUpReachesWall(o.state, ticks[1..]);
    }
  }
}
