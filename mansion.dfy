/**
 * The fixed mansion map and the program's main flow: build the map, explore
 * it, release it.
 */
module Mansion {
  import opened Rooms
  import opened Explorer
  import opened Teardown

  function Leaf(name: string): Tree
  {
    Node(name, Nil, Nil)
  }

  /** The map the program builds, as a tree value. */
  function MansionMap(): (m: Tree)
    ensures Size(m) == 8 && Height(m) == 4
  {
    Node("Hall de entrada",
      Node("Sala de estar",
        Node("Biblioteca", Nil, Leaf("Escritório Secreto")),
        Leaf("Quarto Principal")),
      Node("Cozinha",
        Leaf("Despensa"),
        Leaf("Jardim de Inverno")))
  }

  /** A tree value with every name cut as the room constructor cuts it. */
  function Named(t: Tree): Tree
  {
    match t
    case Nil => Nil
    case Node(name, l, r) => Node(CName(name, MaxNameLength), Named(l), Named(r))
  }

  /**
   * Allocates fresh rooms for the tree value `t`: each room is created before
   * its exits, and its two child pointers are assigned once the exits exist.
   */
  method Build(t: Tree) returns (room: Room?)
    ensures room == null <==> t.Nil?
    ensures room != null ==> room.Valid() && fresh(room.Repr)
    ensures ModelOf(room) == Named(t)
    decreases t
  {
    if t.Nil? {
      return null;
    }
    room := new Room(t.name);
    var l := Build(t.left);
    var r := Build(t.right);
    room.Link(l, r);
  }

  /** The program's map: eight rooms linked as in the fixed layout. */
  method BuildMansion() returns (hall: Room)
    ensures hall.Valid() && fresh(hall.Repr)
    ensures hall.Model == MansionMap()
  {
    var room := Build(MansionMap());
    MansionNamesFit();
    hall := room;
  }

  /**
   * The whole program on a given input: the reason exploration stopped, the
   * replies printed, and the rooms in the order they are freed.
   */
  method Play(input: seq<char>) returns (stop: Stop, log: seq<Reply>, released: seq<Room>)
    ensures stop == Run(MansionMap(), input).stop
    ensures log == Run(MansionMap(), input).log
    ensures |released| == |PostOrder(MansionMap())|
    ensures forall i :: 0 <= i < |released| ==> released[i].name == PostOrder(MansionMap())[i]
  {
    var hall := BuildMansion();
    var cursor, rest;
    cursor, stop, log, rest := Explore(hall, input);
    released := ReleaseOrder(hall);
    ReleasedInPostOrder(hall);
  }

  // --------------------------------------------------- concrete witnesses

  /** A name without NUL that fits the buffer is kept whole. */
  lemma KeepsShortName(s: string)
    requires |s| <= MaxNameLength && '\0' !in s
    ensures CName(s, MaxNameLength) == s
  {
    assert s[..|s|] == s;
  }

  /** Every name of the fixed map fits its buffer, so none is cut. */
  lemma MansionNamesFit()
    ensures Named(MansionMap()) == MansionMap()
  {
    KeepsShortName("Hall de entrada");
    KeepsShortName("Sala de estar");
    KeepsShortName("Biblioteca");
    KeepsShortName("Escritório Secreto");
    KeepsShortName("Quarto Principal");
    KeepsShortName("Cozinha");
    KeepsShortName("Despensa");
    KeepsShortName("Jardim de Inverno");
  }

  /** Every room is freed after its exits; the entrance hall goes last. */
  lemma MansionReleaseOrder()
    ensures PostOrder(MansionMap())
         == ["Escritório Secreto", "Biblioteca", "Quarto Principal", "Sala de estar",
             "Despensa", "Jardim de Inverno", "Cozinha", "Hall de entrada"]
  {
  }

  /** Left, left, right from the entrance hall ends at the secret office. */
  lemma SecretOfficePath()
    ensures Run(MansionMap(), "eed")
         == Outcome(Leaf("Escritório Secreto"), ReachedLeaf, "", [Moved(Left), Moved(Left), Moved(Right)])
  {
  }

  /** The library has no left exit: asking for it keeps the cursor there. */
  lemma LibraryHasNoLeft()
    ensures Run(MansionMap(), "e e E").room.name == "Biblioteca"
    ensures Run(MansionMap(), "e e E")
         == Outcome(MansionMap().left.left, InputFailed, "", [Moved(Left), Moved(Left), NoPath(Left)])
  {
    var hall := MansionMap();
    var livingRoom, library := hall.left, hall.left.left;
    assert Scan("e e E") == Got('e', " e E");
    MoveTakesChild(hall, "e e E", Left);
    assert Scan(" e E") == Got('e', " E");
    MoveTakesChild(livingRoom, " e E", Left);
    assert Scan(" E") == Got('E', "");
    MoveBlocked(library, " E", Left);
    InputEndStops(library, "");
  }

  /** Right, right reaches the winter garden and the rest of the input is left unread. */
  lemma WinterGardenPath()
    ensures Run(MansionMap(), "DDx") == Outcome(Leaf("Jardim de Inverno"), ReachedLeaf, "x", [Moved(Right), Moved(Right)])
  {
  }

  /**
   * The main bedroom is a room without exits: the loop ends on arrival, so a
   * direction typed there is never read, let alone rejected.
   */
  lemma BedroomEndsAtOnce()
    ensures Run(MansionMap(), "ede") == Outcome(Leaf("Quarto Principal"), ReachedLeaf, "e", [Moved(Left), Moved(Right)])
  {
  }

  /** An unknown character is rejected, then quitting keeps the cursor in place. */
  lemma RejectThenQuit()
    ensures Run(MansionMap(), "x\ns") == Outcome(MansionMap(), UserQuit, "", [Invalid])
  {
  }
}
