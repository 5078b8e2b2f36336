/**
 * The interactive exploration: a cursor starts at the entrance hall and follows
 * one-character commands read from the input until it reaches a room without
 * exits, the player quits, or the input runs out.
 */
module Explorer {
  import opened Rooms

  // ---------------------------------------------------------------- input

  /** `isspace` in the C locale: space, and tab through carriage return. */
  predicate IsSpace(c: char)
  {
    c == ' ' || 9 <= c as int <= 13
  }

  /** `tolower` in the C locale: only the letters A to Z change. */
  function Lower(c: char): char
  {
    if 'A' <= c <= 'Z' then (c as int + 32) as char else c
  }

  /** What one `scanf(" %c")` yields: a character and the unread input, or failure. */
  datatype Scanned = Got(c: char, rest: seq<char>) | Eof

  /** Skips leading white space and takes the next character, if there is one. */
  function Scan(s: seq<char>): (r: Scanned)
    ensures r.Eof? <==> forall i :: 0 <= i < |s| ==> IsSpace(s[i])
    ensures r.Got? ==>
      && |r.rest| < |s|
      && s[|s| - |r.rest|..] == r.rest
      && s[|s| - |r.rest| - 1] == r.c
      && !IsSpace(r.c)
      && forall i :: 0 <= i < |s| - |r.rest| - 1 ==> IsSpace(s[i])
  {
    if s == [] then Eof
    else if IsSpace(s[0]) then Scan(s[1..])
    else Got(s[0], s[1..])
  }

  // ------------------------------------------------------------- commands

  /** A player's choice once the character has been lowercased. */
  datatype Command = Go(d: Dir) | Leave | Unknown

  /** 'e' goes left, 'd' goes right, 's' quits; case does not matter. */
  function Decode(c: char): (cmd: Command)
    ensures cmd == Leave <==> c == 's' || c == 'S'
    ensures cmd == Go(Left) <==> c == 'e' || c == 'E'
    ensures cmd == Go(Right) <==> c == 'd' || c == 'D'
  {
    match Lower(c)
    case 's' => Leave
    case 'e' => Go(Left)
    case 'd' => Go(Right)
    case _ => Unknown
  }

  // ------------------------------------------------------------ the loop

  /**
   * What a command that does not end the loop did: a successful move (which
   * prints nothing), or the kind of message printed for a missing exit or an
   * unknown option.
   */
  datatype Reply = Moved(d: Dir) | NoPath(d: Dir) | Invalid

  /** Why the loop ended. `NoRoom`: the map pointer given was null. */
  datatype Stop = NoRoom | ReachedLeaf | UserQuit | InputFailed

  /** Final cursor, reason for stopping, unread input and the replies printed. */
  datatype Outcome = Outcome(room: Tree, stop: Stop, rest: seq<char>, log: seq<Reply>)

  function Prepend(r: Reply, o: Outcome): Outcome
  {
    o.(log := [r] + o.log)
  }

  /** The cursor and the reply after a command that does not quit. */
  function Respond(t: Tree, cmd: Command): (Tree, Reply)
    requires t.Node? && cmd != Leave
  {
    match cmd
    case Unknown => (t, Invalid)
    case Go(d) => if Child(t, d).Node? then (Child(t, d), Moved(d)) else (t, NoPath(d))
  }

  /** Exploration from room `t` on input `input`, one loop iteration per call. */
  function Run(t: Tree, input: seq<char>): (r: Outcome)
    ensures r.stop == NoRoom <==> t.Nil?
    ensures t.Node? ==> r.room.Node?
    ensures |r.rest| <= |input|
    decreases |input|
  {
    if t.Nil? then Outcome(t, NoRoom, input, [])
    else if IsLeaf(t) then Outcome(t, ReachedLeaf, input, [])
    else match Scan(input)
      case Eof => Outcome(t, InputFailed, [], [])
      case Got(c, rest) =>
        if Decode(c) == Leave then Outcome(t, UserQuit, rest, [])
        else
          var (next, reply) := Respond(t, Decode(c));
          Prepend(reply, Run(next, rest))
  }

  /** The outcome of a loop that has already printed `log` before reaching `o`. */
  function Resume(log: seq<Reply>, o: Outcome): Outcome
  {
    o.(log := log + o.log)
  }

  /** One iteration of the loop that reads a command other than quit. */
  lemma RunGot(t: Tree, input: seq<char>, log: seq<Reply>)
    requires t.Node? && !IsLeaf(t) && Scan(input).Got? && Decode(Scan(input).c) != Leave
    ensures Resume(log, Run(t, input))
         == Resume(log + [Respond(t, Decode(Scan(input).c)).1],
                   Run(Respond(t, Decode(Scan(input).c)).0, Scan(input).rest))
  {
    var o := Run(Respond(t, Decode(Scan(input).c)).0, Scan(input).rest);
    assert log + ([Respond(t, Decode(Scan(input).c)).1] + o.log)
        == (log + [Respond(t, Decode(Scan(input).c)).1]) + o.log;
  }

  /** The directions of the successful moves recorded in a log. */
  function Moves(log: seq<Reply>): seq<Dir>
  {
    if log == [] then []
    else if log[0].Moved? then [log[0].d] + Moves(log[1..])
    else Moves(log[1..])
  }

  /** The room reached from `t` by following `path`, one child per step. */
  function Follow(t: Tree, path: seq<Dir>): Tree
  {
    if path == [] || t.Nil? then t else Follow(Child(t, path[0]), path[1..])
  }

  /** `path` leads through existing rooms only. */
  predicate IsPath(t: Tree, path: seq<Dir>)
  {
    path == [] || (t.Node? && Child(t, path[0]).Node? && IsPath(Child(t, path[0]), path[1..]))
  }

  // ---------------------------------------------- one iteration, by branch

  /** At a room without exits the loop ends at once and reads nothing. */
  lemma LeafStops(t: Tree, input: seq<char>)
    requires t.Node? && IsLeaf(t)
    ensures Run(t, input) == Outcome(t, ReachedLeaf, input, [])
  {
  }

  /** Input that fails before a character is read ends the loop where it is. */
  lemma InputEndStops(t: Tree, input: seq<char>)
    requires t.Node? && !IsLeaf(t) && Scan(input).Eof?
    ensures Run(t, input) == Outcome(t, InputFailed, [], [])
  {
  }

  /** Quitting ends the loop with the cursor unchanged and prints nothing else. */
  lemma QuitStops(t: Tree, input: seq<char>)
    requires t.Node? && !IsLeaf(t) && Scan(input).Got? && Lower(Scan(input).c) == 's'
    ensures Run(t, input) == Outcome(t, UserQuit, Scan(input).rest, [])
  {
  }

  /** A direction toward an existing room moves the cursor there. */
  lemma MoveTakesChild(t: Tree, input: seq<char>, d: Dir)
    requires t.Node? && !IsLeaf(t) && Scan(input).Got? && Decode(Scan(input).c) == Go(d)
    requires Child(t, d).Node?
    ensures Run(t, input) == Prepend(Moved(d), Run(Child(t, d), Scan(input).rest))
  {
  }

  /** A direction toward a missing room keeps the cursor and the loop going. */
  lemma MoveBlocked(t: Tree, input: seq<char>, d: Dir)
    requires t.Node? && !IsLeaf(t) && Scan(input).Got? && Decode(Scan(input).c) == Go(d)
    requires Child(t, d).Nil?
    ensures Run(t, input) == Prepend(NoPath(d), Run(t, Scan(input).rest))
  {
  }

  /** Any other character keeps the cursor and the loop going. */
  lemma UnknownIgnored(t: Tree, input: seq<char>)
    requires t.Node? && !IsLeaf(t) && Scan(input).Got?
    requires Lower(Scan(input).c) !in {'s', 'e', 'd'}
    ensures Run(t, input) == Prepend(Invalid, Run(t, Scan(input).rest))
  {
  }

  // ------------------------------------------------------ whole-run facts

  /** Number of characters that `scanf(" %c")` can deliver from `s`. */
  function NonSpaceCount(s: seq<char>): nat
  {
    if s == [] then 0 else (if IsSpace(s[0]) then 0 else 1) + NonSpaceCount(s[1..])
  }

  lemma {:induction false} ScanCount(s: seq<char>)
    ensures Scan(s).Eof? ==> NonSpaceCount(s) == 0
    ensures Scan(s).Got? ==> NonSpaceCount(s) == 1 + NonSpaceCount(Scan(s).rest)
    decreases |s|
  {
    if s != [] && IsSpace(s[0]) { ScanCount(s[1..]); }
  }

  /**
   * Every iteration that does not end the loop consumes exactly one command
   * character and prints one reply; the unread input is a suffix of the input.
   */
  lemma {:induction false} RunConsumes(t: Tree, input: seq<char>)
    ensures |Run(t, input).rest| <= |input|
    ensures input[|input| - |Run(t, input).rest|..] == Run(t, input).rest
    ensures NonSpaceCount(input)
         == |Run(t, input).log| + (if Run(t, input).stop == UserQuit then 1 else 0)
            + NonSpaceCount(Run(t, input).rest)
    decreases |input|
  {
    if t.Node? && !IsLeaf(t) {
      ScanCount(input);
      match Scan(input)
      case Eof =>
      case Got(c, rest) =>
        if Decode(c) != Leave {
          RunConsumes(Respond(t, Decode(c)).0, rest);
        }
    }
  }

  /** Following a path through existing rooms descends one level per step. */
  lemma {:induction false} FollowDescends(t: Tree, path: seq<Dir>)
    requires t.Node? && IsPath(t, path)
    ensures Follow(t, path).Node?
    ensures Height(Follow(t, path)) + |path| <= Height(t)
    decreases |path|
  {
    if path != [] { FollowDescends(Child(t, path[0]), path[1..]); }
  }

  lemma MovesPrepend(r: Reply, log: seq<Reply>)
    ensures Moves([r] + log) == (if r.Moved? then [r.d] else []) + Moves(log)
  {
    assert ([r] + log)[1..] == log;
  }

  /**
   * The cursor always stays on a room of the tree: it is the room reached by
   * the successful moves, each one a step down to an existing child.
   */
  lemma {:induction false} RunFollowsMoves(t: Tree, input: seq<char>)
    requires t.Node?
    ensures IsPath(t, Moves(Run(t, input).log))
    ensures Follow(t, Moves(Run(t, input).log)) == Run(t, input).room
    decreases |input|
  {
    if !IsLeaf(t) {
      match Scan(input)
      case Eof =>
      case Got(c, rest) =>
        if Decode(c) != Leave {
          var (next, reply) := Respond(t, Decode(c));
          RunFollowsMoves(next, rest);
          MovesPrepend(reply, Run(next, rest).log);
        }
    }
  }

  /**
   * How the loop ends: only a null map gives `NoRoom`, a room without exits is
   * the only place where it ends by itself, and there is no way back up.
   */
  lemma RunEnds(t: Tree, input: seq<char>)
    ensures Run(t, input).stop == NoRoom <==> t.Nil?
    ensures t.Node? ==> Run(t, input).room.Node?
    ensures Run(t, input).stop == ReachedLeaf ==> Run(t, input).room.Node? && IsLeaf(Run(t, input).room)
    ensures t.Node? ==> Height(Run(t, input).room) + |Moves(Run(t, input).log)| <= Height(t)
  {
    if t.Node? {
      RunFollowsMoves(t, input);
      FollowDescends(t, Moves(Run(t, input).log));
    } else {
      assert Run(t, input).stop == NoRoom;
    }
  }

  /** The input with every character passed through `tolower`. */
  function LowerAll(s: seq<char>): (r: seq<char>)
    ensures |r| == |s|
  {
    if s == [] then [] else [Lower(s[0])] + LowerAll(s[1..])
  }

  lemma {:induction false} ScanLower(s: seq<char>)
    ensures Scan(LowerAll(s)) == match Scan(s)
                                 case Eof => Eof
                                 case Got(c, rest) => Got(Lower(c), LowerAll(rest))
    decreases |s|
  {
    if s != [] {
      assert LowerAll(s)[0] == Lower(s[0]) && LowerAll(s)[1..] == LowerAll(s[1..]);
      if IsSpace(s[0]) { ScanLower(s[1..]); }
    }
  }

  /** Commands are case-insensitive: lowercasing the whole input changes nothing. */
  lemma {:induction false} RunIgnoresCase(t: Tree, input: seq<char>)
    ensures Run(t, LowerAll(input))
         == Run(t, input).(rest := LowerAll(Run(t, input).rest))
    decreases |input|
  {
    if t.Node? && !IsLeaf(t) {
      ScanLower(input);
      match Scan(input)
      case Eof =>
      case Got(c, rest) =>
        assert Decode(Lower(c)) == Decode(c);
        if Decode(c) != Leave {
          RunIgnoresCase(Respond(t, Decode(c)).0, rest);
        }
    }
  }

  /**
   * The loop itself, walking the heap rooms. Nothing is modified; the cursor
   * only ever moves to an existing child.
   */
  method Explore(hall: Room?, input: seq<char>)
    returns (cursor: Room?, stop: Stop, log: seq<Reply>, rest: seq<char>)
    requires hall != null ==> hall.Valid()
    ensures stop == Run(ModelOf(hall), input).stop
    ensures log == Run(ModelOf(hall), input).log
    ensures rest == Run(ModelOf(hall), input).rest
    ensures cursor == null <==> hall == null
    ensures cursor != null ==>
      hall != null && cursor in hall.Repr && cursor.Valid() &&
      cursor.Model == Run(ModelOf(hall), input).room
  {
    cursor, stop, log, rest := hall, NoRoom, [], input;
    while cursor != null
      invariant cursor == null ==> hall == null && log == [] && rest == input
      invariant cursor != null ==>
        hall != null && cursor in hall.Repr && cursor.Repr <= hall.Repr && cursor.Valid()
      invariant Run(ModelOf(hall), input) == Resume(log, Run(ModelOf(cursor), rest))
      decreases |rest|
    {
      ghost var t := cursor.Model;
      if cursor.left == null && cursor.right == null {
        stop := ReachedLeaf;
        break;
      }
      var scanned := Scan(rest);
      if scanned.Eof? {
        stop, rest := InputFailed, [];
        break;
      }
      var cmd := Decode(scanned.c);
      if cmd == Leave {
        stop, rest := UserQuit, scanned.rest;
        break;
      }
      RunGot(t, rest, log);
      rest := scanned.rest;
      if cmd == Go(Left) {
        if cursor.left != null {
          cursor, log := cursor.left, log + [Moved(Left)];
        } else {
          log := log + [NoPath(Left)];
        }
      } else if cmd == Go(Right) {
        if cursor.right != null {
          cursor, log := cursor.right, log + [Moved(Right)];
        } else {
          log := log + [NoPath(Right)];
        }
      } else {
        log := log + [Invalid];
      }
    }
  }
}
