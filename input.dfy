/** Decoding the single terminal event sampled during a tick into a heading. */
module Input {
  import opened Geometry

  datatype Option<T> = None | Some(value: T)

  /** Key codes a key event carries. Only the four arrows steer; the rest stand for every other key. */
  datatype KeyCode =
    | ArrowUp | ArrowDown | ArrowLeft | ArrowRight
    | Char(c: char) | Function(n: nat)
    | Enter | Esc | Backspace | Tab | OtherKey

  /** Terminal events; only `Key` events are looked at. */
  datatype Event =
    | Key(code: KeyCode)
    | Mouse
    | Resize(columns: nat, rows: nat)
    | Paste(text: string)
    | FocusGained
    | FocusLost

  /** Every outcome of one zero-timeout poll followed, when an event is ready, by one read. */
  datatype Sample =
    | PollFailed              // the poll returned an error
    | Idle                    // the poll reported that no event is pending
    | ReadFailed              // an event was pending but reading it failed
    | Received(event: Event)  // one event was read

  predicate IsArrow(code: KeyCode) {
    code.ArrowUp? || code.ArrowDown? || code.ArrowLeft? || code.ArrowRight?
  }

  /** The sample carries an arrow-key event. */
  predicate Steers(s: Sample) {
    s.Received? && s.event.Key? && IsArrow(s.event.code)
  }

  /** The key code of the sampled event, if a key event was read. */
  function PendingKey(s: Sample): (k: Option<KeyCode>)
    ensures k.Some? <==> s.Received? && s.event.Key?
    ensures k.Some? ==> k.value == s.event.code
  {
    match s
    case Received(Key(code)) => Some(code)
    case _ => None
  }

  /** The heading after sampling: an arrow key sets it, anything else holds `current`. */
  function ReadDirection(current: Direction, s: Sample): (r: Direction)
    ensures !s.Received? ==> r == current
    ensures s.Received? && !s.event.Key? ==> r == current
    ensures s.Received? && s.event.Key? && !IsArrow(s.event.code) ==> r == current
    ensures r != current ==> Steers(s)
  {
    match PendingKey(s)
    case None => current
    case Some(code) =>
      match code
      case ArrowUp => Up
      case ArrowDown => Down
      case ArrowLeft => Left
      case ArrowRight => Right
      case _ => current
  }

  /** Each arrow key selects its own heading, whatever the current one. */
  lemma ArrowSetsHeading(current: Direction)
    ensures ReadDirection(current, Received(Key(ArrowUp))) == Up
    ensures ReadDirection(current, Received(Key(ArrowDown))) == Down
    ensures ReadDirection(current, Received(Key(ArrowLeft))) == Left
    ensures ReadDirection(current, Received(Key(ArrowRight))) == Right
  {
  }

  /** A steering sample's heading does not depend on the heading before it. */
  lemma SteeringIgnoresCurrent(s: Sample, c1: Direction, c2: Direction)
    requires Steers(s)
    ensures ReadDirection(c1, s) == ReadDirection(c2, s)
  {
  }

  /** Every heading is selected by some arrow key. */
  lemma EveryHeadingHasArrow(current: Direction, d: Direction)
    ensures exists k :: IsArrow(k) && ReadDirection(current, Received(Key(k))) == d
  {
    var k := match d case Up => ArrowUp case Down => ArrowDown case Left => ArrowLeft case Right => ArrowRight;
    assert IsArrow(k) && ReadDirection(current, Received(Key(k))) == d;
  }
}
