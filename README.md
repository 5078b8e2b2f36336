# Detective Quest mansion map, modelled in Dafny

The program holds a mansion as a binary tree of rooms (`Sala`), each a name
in a 50-byte buffer plus a left (`esquerda`) and a right (`direita`) exit.
`main` builds one fixed map of eight rooms. `explorarSalas` moves a cursor from
the entrance hall on one-letter commands: `e` goes left, `d` goes right, `s`
quits, and case does not matter. The loop ends when it reaches a room with no
exits, when the player quits, or when the input runs out. `liberarMapa` then
frees the map in post-order.

The model has four modules, one per component:

- `Rooms` (rooms.dfy): the tree value `Tree` and the heap node `Room`. `Room` has the
  source's three fields plus a ghost footprint `Repr` and a ghost value `Model`.
  `Valid()` says the rooms form a strict binary tree: no sharing and no cycles.
  The constructor models `criarSala`. `CName` models the `strncpy`/terminator pair.
- `Explorer` (explorer.dfy): `Scan` models one `scanf(" %c")`, `Decode` models `tolower`
  and the command branches, and `Run` specifies the whole loop as a function
  over the tree value and the input. The method `Explore` is the loop itself:
  it walks the heap rooms with a cursor and is proved equal to `Run`.
- `Teardown` (teardown.dfy): `ReleaseOrder` is the sequence of rooms in the order
  `liberarMapa` frees them. It is tied to the rooms' footprints and to the
  post-order of the tree value.
- `Mansion` (mansion.dfy): the fixed map, its construction, `Play` (the whole of
  `main` on a given input) and concrete walks through the map.

The input is a finite sequence of characters that still includes white space.
`Scan` skips white space the way `" %c"` does. End of input and a read error
are one outcome, because `scanf` reports both the same way. Each command that
does not end the loop leaves a `Reply`. `Moved` records a successful move,
which prints nothing. `NoPath` and `Invalid` stand for the two kinds of message
printed for a missing exit and for an unknown option. The reason the loop
stopped is a `Stop`. Message text is not modelled.

A room without exits ends the loop before any command is read: the test at
algoritmos_avancados.c:62-65 comes before the read at line 81. So a direction
typed on arrival at "Quarto Principal" is never answered with an
invalid-direction message. `Mansion.BedroomEndsAtOnce` shows this.

## Model

| member | source | states |
|---|---|---|
| `Rooms.CName` | algoritmos_avancados.c:36-37 | The stored name is a prefix of the argument that has at most 49 characters and no NUL. It is shorter than the argument only at the 49-character limit or at the argument's first NUL. For an argument without NUL it is exactly the first min(length, 49) characters. |
| `Rooms.CopyLength` | algoritmos_avancados.c:36 | `strncpy` copies characters up to the bound, the end of the string or the first NUL, whichever comes first. No NUL lies before the stopping point. |
| `Rooms.Room.constructor` | algoritmos_avancados.c:25-44 | A new room is valid and stands alone. Its name is `CName(name, 49)` and both exits are null. Its tree value is a leaf with that name. |
| `Rooms.Room.Link` | algoritmos_avancados.c:143-157 | Assigns both child pointers of a room without exits. When the children are valid, disjoint trees that do not contain the room, the room is valid afterwards. It then owns exactly itself and the children's rooms, and its tree value has the children's values as subtrees. |
| `Explorer.Scan` | algoritmos_avancados.c:81-85 | Reading fails exactly when the rest of the input is all white space. Otherwise the character read is the first non-white-space one, everything before it is white space, and the unread input is the suffix after it. |
| `Explorer.Decode` | algoritmos_avancados.c:88-110 | The character quits exactly when it is `s` or `S`. It goes left exactly when it is `e` or `E`, and right exactly when it is `d` or `D`. Every other character is unknown. |
| `Explorer.Run` | algoritmos_avancados.c:58-111 | The reference definition of the whole loop that the lemmas below are about. It stops with no room exactly when the map is null. From a room it always ends on a room. The unread input is never longer than the input. |
| `Explorer.Explore` | algoritmos_avancados.c:51-112 | The loop gives the same stop reason, replies and unread input as `Run` on the map's tree value. The cursor is null exactly when the map is. Otherwise it is a valid room owned by the map, and its tree value is `Run`'s final room. |
| `Explorer.LeafStops` | algoritmos_avancados.c:62-65 | At a room with no exits the loop ends at once. The cursor stays there, no input is read and nothing is replied. |
| `Explorer.InputEndStops` | algoritmos_avancados.c:81-85 | When no character can be read, the loop ends gracefully where it is. |
| `Explorer.QuitStops` | algoritmos_avancados.c:91-93 | A character that lowercases to `s` ends the loop with the cursor unchanged and no further reply. |
| `Explorer.MoveTakesChild` | algoritmos_avancados.c:94-104 | A direction toward an existing exit moves the cursor to that child and the loop continues from there. |
| `Explorer.MoveBlocked` | algoritmos_avancados.c:98-106 | A direction toward a missing exit replies "no path" for that direction, keeps the cursor and continues. |
| `Explorer.UnknownIgnored` | algoritmos_avancados.c:108-110 | Any other character replies "invalid option", keeps the cursor and continues. |
| `Explorer.ScanCount` | algoritmos_avancados.c:81 | Each successful read consumes exactly one non-white-space character. A failed read leaves none. |
| `Explorer.RunConsumes` | algoritmos_avancados.c:58-111 | The unread input is a suffix of the input. Counting its non-white-space characters: the input has one per reply, plus one for a quit, plus those still unread. So every iteration that does not end the loop consumes one command, and the loop ends on finite input. |
| `Explorer.RunFollowsMoves` | algoritmos_avancados.c:52-111 | The final cursor is the room reached from the start by following the successful moves in order. Each move steps to an existing child. |
| `Explorer.FollowDescends` | algoritmos_avancados.c:97-104 | Following a path of existing exits ends at a room whose height is lower by at least the path's length, so every step goes one level down. |
| `Explorer.RunEnds` | algoritmos_avancados.c:58-65 | The loop stops with no room exactly when the map is null. From a room, the cursor always ends on a room. Reaching the end by itself happens only at a room with no exits. Height plus the number of moves never exceeds the map's height, so there is no way back up. |
| `Explorer.ScanLower` | algoritmos_avancados.c:81-88 | Lowercasing the input first does not change where a read stops. It only lowercases the character read and the unread input. |
| `Explorer.RunIgnoresCase` | algoritmos_avancados.c:88-110 | Exploring the lowercased input ends at the same room, for the same reason and with the same replies. Only the unread input is lowercased. |
| `Teardown.ReleaseOrder` | algoritmos_avancados.c:119-126 | Frees left subtree, right subtree, then the room. Only rooms owned by the map are freed, and a null pointer frees nothing. |
| `Teardown.ReleasedOnce` | algoritmos_avancados.c:119-126 | Every room owned by the map is freed, none twice, and a null map frees nothing. |
| `Teardown.ReleasedChildrenFirst` | algoritmos_avancados.c:120-124 | No room is freed after a room that owns it: both subtrees go before their root. |
| `Teardown.ReleasedInPostOrder` | algoritmos_avancados.c:119-126 | The names of the freed rooms are the post-order of the map's tree value. |
| `Mansion.MansionMap` | algoritmos_avancados.c:140-157 | The fixed layout as a tree value: eight rooms, four levels deep. |
| `Mansion.Build` | algoritmos_avancados.c:140-157 | Creates fresh rooms for a tree value and links their exit pointers. The result is null exactly for the empty tree; otherwise it is a valid map of fresh rooms whose value is the tree with its names cut. |
| `Mansion.BuildMansion` | algoritmos_avancados.c:139-157 | The built map is valid, made of fresh rooms, and equals the fixed layout with the eight names unchanged. |
| `Mansion.MansionNamesFit` | algoritmos_avancados.c:140-157 | None of the eight names of the fixed map is cut by the 49-character buffer. |
| `Mansion.KeepsShortName` | algoritmos_avancados.c:36-37 | A name without NUL and at most 49 characters long is stored whole. |
| `Mansion.Play` | algoritmos_avancados.c:133-175 | For any input, the program's exploration gives `Run`'s stop reason and replies on the fixed map. Its rooms are freed in the post-order of that map. |
| `Mansion.MansionReleaseOrder` | algoritmos_avancados.c:140-157 | The fixed map is freed as: Escritório Secreto, Biblioteca, Quarto Principal, Sala de estar, Despensa, Jardim de Inverno, Cozinha, then Hall de entrada last. |
| `Mansion.SecretOfficePath` | algoritmos_avancados.c:147-157 | Left, left, right from the hall ends at the leaf "Escritório Secreto" and reads nothing more. |
| `Mansion.LibraryHasNoLeft` | algoritmos_avancados.c:156-157 | After left, left the cursor is at "Biblioteca". A further left gets "no path" and keeps it there until input ends. |
| `Mansion.WinterGardenPath` | algoritmos_avancados.c:151-153 | `D`, `D` reaches the leaf "Jardim de Inverno" and leaves the rest of the input unread. |
| `Mansion.BedroomEndsAtOnce` | algoritmos_avancados.c:149 | Left, right reaches the leaf "Quarto Principal", where the loop ends with the next character unread. |
| `Mansion.RejectThenQuit` | algoritmos_avancados.c:108-110 | An unknown character is rejected at the hall. A following `s`, after white space, quits with the cursor still at the hall. |

## Left out

- Text of the messages printed by `printf`, including the room name shown at each iteration and the list of available exits. Only the kind of each message is modelled, as `Reply` and `Stop`.
- Allocation failure in `criarSala` (`perror` and `exit(EXIT_FAILURE)`). It is a fatal resource path; allocation always succeeds in the model.
- Actual reclamation of memory by `free`. The model records the order of release, not what the allocator does with it.
- Mansion.Build: the program assigns the child pointers top-down in straight-line code, attaching a room to its parent before giving it exits. The model gives every room its exits before attaching it, so the ghost tree invariant holds after each pointer assignment. The rooms created, their names and the links between them are the same.
- Locale and multibyte text. `tolower` and `isspace` are modelled for the C locale: only `A`-`Z` change case, and space plus codes 9 to 13 count as white space. Each input character stands for one byte. So a multibyte character such as "é", which the program reads as two bytes and answers with two invalid-option messages, is one character in the model and gets one `Invalid` reply. `strncpy` is modelled per character, not per byte, so accented names are not cut inside a UTF-8 sequence. All eight fixed names fit the buffer either way.
- The difference between end of input and a stream error. Both end the loop in the same way.
