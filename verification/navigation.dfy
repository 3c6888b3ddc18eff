/** The exploration state machine of `explorarSalas`, taken out of its
    terminal I/O: one input character per step, a cursor on the current
    room, and the reason the walk ended. */
module Navigation {
  import opened CStrings
  import opened RoomTree

  datatype Option<T> = None | Some(value: T)

  datatype Direction = Left | Right

  /** What one input character does in a room that has at least one path. */
  datatype Decision =
    | Quit                       // 's' or 'S'
    | Move(dir: Direction)       // the path exists and the cursor takes it
    | Blocked(dir: Direction)    // "no path that way": the cursor stays
    | InvalidOption              // any other character: the cursor stays

  datatype StopReason =
    | NoRoom          // started on a null room: nothing happens
    | DeadEnd         // arrived at a room with no paths
    | PlayerQuit      // read 's' or 'S'
    | InputExhausted  // the finite input ran out

  /** One exploration: the rooms arrived at in order (the start first), one
      decision per character read, and why it stopped. */
  datatype Run = Run(path: seq<RoomTree>, decisions: seq<Decision>, reason: StopReason)

  predicate IsQuitKey(ch: char) { ch == 's' || ch == 'S' }
  predicate IsLeftKey(ch: char) { ch == 'e' || ch == 'E' }
  predicate IsRightKey(ch: char) { ch == 'd' || ch == 'D' }

  /** The case analysis on one character, given which paths the room has.
      A move is only ever taken along a path that exists. */
  function Decide(hasLeft: bool, hasRight: bool, ch: char): (d: Decision)
    ensures d == Move(Left) ==> hasLeft
    ensures d == Move(Right) ==> hasRight
  {
    if IsQuitKey(ch) then Quit
    else if IsLeftKey(ch) then (if hasLeft then Move(Left) else Blocked(Left))
    else if IsRightKey(ch) then (if hasRight then Move(Right) else Blocked(Right))
    else InvalidOption
  }

  function Child(room: RoomTree, dir: Direction): RoomTree
    requires room.Room?
  {
    match dir
    case Left => room.left
    case Right => room.right
  }

  /** The decision for `ch` in `room`. */
  function DecisionIn(room: RoomTree, ch: char): Decision
    requires room.Room?
  {
    Decide(room.left.Room?, room.right.Room?, ch)
  }

  /** The cursor after reading `ch` in `room`; `None` when exploration stops.
      The cursor either stays where it is or moves to a direct child. */
  function Step(room: RoomTree, ch: char): (next: Option<RoomTree>)
    requires room.Room?
    ensures next.Some? ==> next.value == room || IsChild(next.value, room)
  {
    match DecisionIn(room, ch)
    case Quit => None
    case Move(dir) => Some(Child(room, dir))
    case _ => Some(room)
  }

  /** Exploration from `room` over `input`. The loop announces the room,
      stops at once in a room with no paths, and otherwise reads one
      character and acts on it. */
  function Explore(room: RoomTree, input: seq<char>): (r: Run)
    ensures r.reason == NoRoom <==> room.Empty?
    ensures r.path == [] <==> room.Empty?
    decreases |input|
  {
    if room.Empty? then Run([], [], NoRoom)
    else if IsLeaf(room) then Run([room], [], DeadEnd)
    else if input == [] then Run([room], [], InputExhausted)
    else
      var d := DecisionIn(room, input[0]);
      match Step(room, input[0])
      case None => Run([room], [d], PlayerQuit)
      case Some(next) =>
        var rest := Explore(next, input[1..]);
        Run(if d.Move? then [room] + rest.path else rest.path, [d] + rest.decisions, rest.reason)
  }

  /** Number of moves among the decisions. */
  function Moves(ds: seq<Decision>): (n: nat)
    ensures n <= |ds|
  {
    if ds == [] then 0 else (if ds[0].Move? then 1 else 0) + Moves(ds[1..])
  }

  predicate IsDescent(path: seq<RoomTree>) {
    forall k :: 0 <= k < |path| - 1 ==> IsChild(path[k + 1], path[k])
  }

  // ---------------------------------------------------------------------
  // The per-step transition rule

  /** `e`/`E` takes the left path when there is one; otherwise, like any
      character that is neither a move nor `s`/`S`, it leaves the cursor
      in place. `d`/`D` likewise for the right path. */
  lemma StepRule(room: RoomTree, ch: char)
    requires room.Room?
    ensures Step(room, ch).None? <==> IsQuitKey(ch)
    ensures IsLeftKey(ch) ==> Step(room, ch) == Some(if room.left.Room? then room.left else room)
    ensures IsRightKey(ch) ==> Step(room, ch) == Some(if room.right.Room? then room.right else room)
    ensures IsLeftKey(ch) && room.left.Empty? ==> DecisionIn(room, ch) == Blocked(Left)
    ensures IsRightKey(ch) && room.right.Empty? ==> DecisionIn(room, ch) == Blocked(Right)
    ensures !IsQuitKey(ch) && !IsLeftKey(ch) && !IsRightKey(ch) ==>
              Step(room, ch) == Some(room) && DecisionIn(room, ch) == InvalidOption
  {
  }

  /** The decision records a move exactly when the cursor changes room. */
  lemma MoveIffChildTaken(room: RoomTree, ch: char)
    requires room.Room?
    ensures DecisionIn(room, ch).Move? <==>
              (IsLeftKey(ch) && room.left.Room?) || (IsRightKey(ch) && room.right.Room?)
    ensures DecisionIn(room, ch).Move? ==>
              Step(room, ch) == Some(Child(room, DecisionIn(room, ch).dir)) &&
              IsChild(Child(room, DecisionIn(room, ch).dir), room)
  {
  }

  /** One round of exploration in a room that has a path, given a
      character: a quit ends the walk there, a move continues from the child
      with the room put in front of the path, anything else continues from
      the same room. */
  lemma ExploreRound(room: RoomTree, input: seq<char>)
    requires room.Room? && !IsLeaf(room) && input != []
    ensures var d := DecisionIn(room, input[0]);
      var run := Explore(room, input);
      && (d == Quit ==> run == Run([room], [d], PlayerQuit))
      && (d.Move? ==>
            var rest := Explore(Child(room, d.dir), input[1..]);
            run == Run([room] + rest.path, [d] + rest.decisions, rest.reason))
      && (d != Quit && !d.Move? ==>
            var rest := Explore(room, input[1..]);
            run == Run(rest.path, [d] + rest.decisions, rest.reason))
  {
  }

  // ---------------------------------------------------------------------
  // Properties of a whole exploration

  /** A null start ends at once; a room with no paths ends the walk before
      any character is read for it. */
  lemma ExploreStartsAtRoom(room: RoomTree, input: seq<char>)
    ensures room.Empty? ==> Explore(room, input) == Run([], [], NoRoom)
    ensures IsLeaf(room) ==> Explore(room, input) == Run([room], [], DeadEnd)
  {
  }

  /** The path starts at the start room and each next room is a direct
      child of the one before, so every room on it is reachable from the
      start; the walk reads no more characters than it is given. */
  lemma {:induction false} ExploreDescends(room: RoomTree, input: seq<char>)
    requires room.Room?
    ensures var run := Explore(room, input);
      && |run.path| >= 1 && run.path[0] == room
      && IsDescent(run.path)
      && (forall k :: 0 <= k < |run.path| ==> run.path[k] in Rooms(room))
      && |run.decisions| <= |input|
    decreases |input|
  {
    var run := Explore(room, input);
    if !IsLeaf(room) && input != [] {
      var d := DecisionIn(room, input[0]);
      match Step(room, input[0])
      case None =>
      case Some(next) =>
        ExploreDescends(next, input[1..]);
        var rest := Explore(next, input[1..]);
        if d.Move? {
          MoveIffChildTaken(room, input[0]);
          assert IsChild(next, room);
          ChildRoomsIncluded(next, room);
          assert run.path == [room] + rest.path;
          forall k | 0 <= k < |run.path| - 1
            ensures IsChild(run.path[k + 1], run.path[k])
          {
            if k > 0 {
              assert run.path[k + 1] == rest.path[k] && run.path[k] == rest.path[k - 1];
            }
          }
        } else {
          assert next == room;
        }
    }
  }

  /** Every character read that moves the cursor adds one room to the path,
      and the path cannot be longer than the tree is high: the number of
      moves is bounded by both the height and the characters consumed. */
  lemma {:induction false} ExploreMovesBounded(room: RoomTree, input: seq<char>)
    requires room.Room?
    ensures var run := Explore(room, input);
      && |run.path| - 1 == Moves(run.decisions)
      && |run.path| - 1 <= |run.decisions| <= |input|
      && |run.path| - 1 <= Height(room)
    decreases |input|
  {
    var run := Explore(room, input);
    HeightOfRoom(room);
    ExploreDescends(room, input);
    if !IsLeaf(room) && input != [] {
      var d := DecisionIn(room, input[0]);
      match Step(room, input[0])
      case None =>
      case Some(next) =>
        var rest := Explore(next, input[1..]);
        ExploreMovesBounded(next, input[1..]);
        assert run.decisions[1..] == rest.decisions;
        if d.Move? {
          MoveIffChildTaken(room, input[0]);
          ChildIsLower(next, room);
        } else {
          assert next == room;
        }
    }
  }

  /** Why the walk stopped is visible in the run: a dead end is a room
      without paths, a quit is the last character read, and running out of
      input means every character was read. */
  lemma {:induction false} ExploreStopReason(room: RoomTree, input: seq<char>)
    requires room.Room?
    ensures var run := Explore(room, input);
      && |run.path| >= 1 && |run.decisions| <= |input|
      && run.reason != NoRoom
      && (run.reason == DeadEnd ==> IsLeaf(run.path[|run.path| - 1]))
      && (run.reason == PlayerQuit ==>
            |run.decisions| >= 1 && IsQuitKey(input[|run.decisions| - 1]) &&
            run.decisions[|run.decisions| - 1] == Quit)
      && (run.reason == InputExhausted ==>
            |run.decisions| == |input| && !IsLeaf(run.path[|run.path| - 1]))
      && (forall k :: 0 <= k < |run.decisions| - 1 ==> run.decisions[k] != Quit)
    decreases |input|
  {
    var run := Explore(room, input);
    ExploreDescends(room, input);
    if !IsLeaf(room) && input != [] {
      var d := DecisionIn(room, input[0]);
      match Step(room, input[0])
      case None =>
      case Some(next) =>
        var rest := Explore(next, input[1..]);
        ExploreStopReason(next, input[1..]);
        ExploreDescends(next, input[1..]);
        assert run.decisions == [d] + rest.decisions;
        assert d != Quit;
        if run.reason == PlayerQuit {
          assert input[|run.decisions| - 1] == input[1..][|rest.decisions| - 1];
        }
        assert run.path[|run.path| - 1] == rest.path[|rest.path| - 1];
    }
  }

  /** In a full and perfect tree of height `h`, a walk that ends at a dead
      end has made exactly `h` moves. */
  lemma {:induction false} PerfectDeadEndDepth(room: RoomTree, h: nat, input: seq<char>)
    requires Perfect(room, h)
    requires Explore(room, input).reason == DeadEnd
    ensures |Explore(room, input).path| == h + 1
    decreases |input|
  {
    var run := Explore(room, input);
    if h == 0 {
      assert IsLeaf(room);
    } else {
      assert !IsLeaf(room) && input != [];
      var d := DecisionIn(room, input[0]);
      match Step(room, input[0])
      case None =>
      case Some(next) =>
        if d.Move? {
          MoveIffChildTaken(room, input[0]);
          PerfectChild(next, room, h);
          PerfectDeadEndDepth(next, h - 1, input[1..]);
        } else {
          assert next == room;
          PerfectDeadEndDepth(room, h, input[1..]);
        }
    }
  }
}
