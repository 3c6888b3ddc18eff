# Detective Quest: the mansion map

A Dafny model of the room tree in `algoritmos_avancados.c`:

- the `Sala` node: a 64-byte name buffer and two paths, left (`esq`) and right (`dir`);
- `criarSala`, which allocates a room and copies its name with `strncpy`;
- `montarMapa`, which builds the fixed seven-room mansion;
- `explorarSalas`, the interactive walk from the hall driven by `e`/`d`/`s`;
- `liberarArvore`, the post-order teardown.

The project has four modules:

- `CStrings` (`cstrings.dfy`): one-byte characters, the bytes `strncpy` writes (`StrNCopy`, loops over an array) and the string a NUL-terminated buffer denotes (`CString`, `Holds`).
- `RoomTree` (`roomtree.dfy`): the map as a value, a binary tree of named rooms. It has its size, height, rooms, perfect shape and post-order.
- `Navigation` (`navigation.dfy`): the exploration as pure logic.
  - `Decide` is the case analysis on one character.
  - `Step` gives the cursor after one character.
  - `Explore` gives the whole run: the rooms arrived at, one decision per character read, and why the walk stopped.
- `Mansion` (`mansion.dfy`): the heap rooms, as a class `Sala` with the fields of the C struct. Each room carries ghost state: the rooms it owns (`Repr`) and the tree it stands for (`Tree`).
  - `CreateRoom`, `BuildMap`, `ExploreRooms` and `ReleaseTree` are methods over the heap.
  - `ExploreRooms` runs the `while` loop of `explorarSalas` and is proved to produce exactly `Explore` of the start room's tree.
  - `ReleaseTree` recurses like `liberarArvore` and returns the rooms in the order they would be freed.

The player's keystrokes are a finite sequence `input`. Each element is the first character of one line: `getchar` reads it, and `limparBuffer` discards the rest of that line.

## Model

| member | source | states |
|---|---|---|
| CStrings.StrNCopy | algoritmos_avancados.c:27 | `strncpy(dst, src, n)` writes the first n bytes of `src`, NUL-padded up to n, and leaves the rest of `dst` untouched |
| CStrings.Padded | algoritmos_avancados.c:27 | the n bytes written are the source's first min(\|src\|, n) bytes followed only by NULs |
| CStrings.CString | algoritmos_avancados.c:12 | the string a buffer denotes is a NUL-free prefix of it, followed by a NUL when shorter than the buffer |
| CStrings.CStringOfTerminated | algoritmos_avancados.c:28 | a NUL-free string followed by a terminator denotes exactly that string, whatever bytes follow |
| CStrings.HoldsIffDenotes | algoritmos_avancados.c:12 | a buffer holds a string (its bytes, then a NUL) exactly when it denotes that string and the string is shorter than the buffer |
| RoomTree.Truncated | algoritmos_avancados.c:27-28 | the name kept is a prefix of the given name of at most 63 bytes: the whole name when it fits, exactly 63 bytes when it does not |
| Mansion.NameBuffer | algoritmos_avancados.c:27-28 | the stored buffer has 64 bytes and its last byte is NUL whatever the name |
| Mansion.NameBufferHoldsTruncated | algoritmos_avancados.c:27-28 | the buffer `criarSala` fills holds and denotes the name truncated to 63 bytes |
| Mansion.Sala.constructor | algoritmos_avancados.c:24-31 | the new room's buffer is the padded copy plus the terminator, it has no paths, it owns only itself and it stands for a leaf named by the truncated name |
| Mansion.CreateRoom | algoritmos_avancados.c:24-31 | `criarSala` returns a fresh room with no paths, named by the truncated name |
| Mansion.FreshRoomIsValid | algoritmos_avancados.c:29 | a room with no paths is a valid one-room tree |
| Mansion.Sala.Valid | algoritmos_avancados.c:11-15 | a room owns itself and the rooms below it as a tree: no room shared between the two paths or reachable back from below, each buffer holding its room's name, the room standing for the tree its paths form |
| Mansion.OwnedRoomIsValid | algoritmos_avancados.c:11-15 | every room a valid room owns is valid and owns only rooms of the first |
| Mansion.LinkedRoomIsValid | algoritmos_avancados.c:82-89 | linking two valid, disjoint trees below a room gives a valid tree |
| Mansion.AttachRooms | algoritmos_avancados.c:80-89 | gives a room two new, distinct, fresh leaves as its left and right paths, changing only its two links |
| Mansion.AttachLevelTwo | algoritmos_avancados.c:84-89 | the four level-2 rooms are hung below the living room and the garden, and the hall then owns seven rooms forming the map |
| Mansion.BuildMap | algoritmos_avancados.c:76-91 | `montarMapa` returns a valid hall whose rooms are all new and whose tree is the seven-room map |
| Mansion.MansionMap | algoritmos_avancados.c:76-91 | the map has the hall at the root, the living room and the garden below it, and kitchen, library, garage and study as leaves; it is perfect of height 2 |
| Mansion.MapNamesFit | algoritmos_avancados.c:78-89 | no room name of the map is longer than 63 bytes, so truncation keeps every name whole |
| Mansion.MansionIsPerfect | algoritmos_avancados.c:76-91 | the map is full and perfect of height 2 with 7 rooms: every room has both paths or none |
| Navigation.Decide | algoritmos_avancados.c:61-70 | a move is decided only along a path that exists |
| Navigation.Step | algoritmos_avancados.c:61-70 | after one character the cursor stays put or moves to a direct child |
| Navigation.StepRule | algoritmos_avancados.c:61-70 | `s`/`S` and only those stop; `e`/`E` and `d`/`D` move when the path exists and otherwise stay, decided as blocked in that direction; any other character is an invalid option and stays |
| Navigation.MoveIffChildTaken | algoritmos_avancados.c:64-67 | a move is recorded exactly when the key's path exists, and the cursor then goes to that child |
| Navigation.Explore | algoritmos_avancados.c:43-72 | the run of the loop: rooms arrived at, one decision per character read, and why it stopped; it stops with no room exactly when the start is null, and the path is empty exactly then |
| Navigation.ExploreRound | algoritmos_avancados.c:47-71 | one round in a room with a path: quit ends the walk there, a move continues from the child, anything else continues from the same room |
| Navigation.ExploreStartsAtRoom | algoritmos_avancados.c:44-54 | a null start does nothing; a start with no paths stops at once without reading |
| Navigation.ExploreDescends | algoritmos_avancados.c:47-71 | the path starts at the start room, each room is a child of the one before and a room of the start tree, and no more characters are read than given |
| Navigation.ExploreMovesBounded | algoritmos_avancados.c:64-67 | rooms arrived at after the start equal the moves made, which are at most the characters read and at most the tree's height |
| Navigation.ExploreStopReason | algoritmos_avancados.c:51-63 | a dead end stops at a room with no paths; a quit stops on an `s`/`S` that was the last character read and is the only quit; exhaustion means all input was read at a room with paths |
| Navigation.PerfectDeadEndDepth | algoritmos_avancados.c:51-54 | in a perfect tree of height h, a walk that reaches a dead end made exactly h moves |
| Mansion.ExploreToKitchen | algoritmos_avancados.c:64-65 | from the hall, `e`, `e` reaches the kitchen, a dead end |
| Mansion.ExploreToStudy | algoritmos_avancados.c:66-67 | `D`, `d` reaches the study and stops; a third key is never read |
| Mansion.QuitAtHall | algoritmos_avancados.c:61-63 | `s` at the hall ends the walk there |
| Mansion.InvalidKeyThenExhausted | algoritmos_avancados.c:68-70 | an unknown key leaves the cursor in place; `d` then moves to the garden |
| Mansion.ExploreRooms | algoritmos_avancados.c:43-72 | `explorarSalas` visits the heap rooms standing for `Explore`'s path, takes its decisions and stops for its reason; each room visited is owned by the start and is a path of the one before |
| Mansion.WalkStops | algoritmos_avancados.c:51-63 | each of the loop's exits (dead end, no input, quit) completes the exploration |
| Mansion.WalkGoesOn | algoritmos_avancados.c:64-70 | a round that does not quit keeps the loop invariant with the cursor moved or kept |
| Mansion.ResumesAfterRound | algoritmos_avancados.c:59-70 | reading one character continues the same exploration from the room the cursor is on next |
| Mansion.ResumesAtStop | algoritmos_avancados.c:51-54 | the loop stops without reading at a room with no paths or when the input is used up |
| Mansion.ReleaseTree | algoritmos_avancados.c:34-39 | `liberarArvore` frees nothing for null; otherwise every room the root owns exactly once, each after both of its paths, in post-order of its tree |
| Mansion.ReleasedInOrder | algoritmos_avancados.c:36-38 | freeing the left subtree, then the right, then the root, frees the whole tree correctly |
| Mansion.ReleasedOnce | algoritmos_avancados.c:36-38 | that order frees each owned room exactly once and nothing else |
| Mansion.ReleasedInPostOrder | algoritmos_avancados.c:36-38 | that order is the post-order of the tree the root stands for |
| Mansion.ChildrenFreedFirst | algoritmos_avancados.c:36-38 | no room is freed before its paths |
| RoomTree.PostOrder | algoritmos_avancados.c:34-39 | the order `liberarArvore` frees rooms in: left subtree, right subtree, then the room; it has as many entries as the tree has rooms and ends with the root |
| RoomTree.PostOrderCoversTree | algoritmos_avancados.c:34-39 | the post-order lists as many rooms as the tree has, exactly its rooms, with the root last |
| RoomTree.ChildIsLower | algoritmos_avancados.c:64-67 | a path leads to a strictly lower room |
| RoomTree.ChildRoomsIncluded | algoritmos_avancados.c:64-67 | the rooms of a child are rooms of its parent |
| RoomTree.HeightOfRoom | algoritmos_avancados.c:51 | a room has no paths exactly when its height is 0 |
| RoomTree.PerfectSize | algoritmos_avancados.c:76-91 | a perfect tree of height h has height h and 2^(h+1)-1 rooms |
| RoomTree.PerfectIsFull | algoritmos_avancados.c:76-91 | in a perfect tree every room has both paths or none |
| RoomTree.PerfectChild | algoritmos_avancados.c:64-67 | a child of a perfect room of height h is perfect of height h-1 |
| RoomTree.RoomsAreLower | algoritmos_avancados.c:47-71 | no room of a tree is higher than the tree |
| RoomTree.ChildOfRoomIsRoom | algoritmos_avancados.c:64-67 | a child of a room of a tree is a room of that tree |

## Left out

- Terminal output (`printf`, `perror`) is not modelled. The walk's observable result is the run: rooms, decisions and stop reason.
- `limparBuffer` is not modelled. Each input element stands for the first character of one line. An empty line is not modelled: there `getchar` returns `'\n'` and `limparBuffer` then also swallows the next line.
- End of input: the source's loop keeps reading `EOF` as an invalid option forever. The model's input is finite and ends with `InputExhausted`.
- `malloc` failure and `exit(1)` in `criarSala` are not modelled; allocation always succeeds.
- `free` is not modelled as deallocation. `ReleaseTree` returns the sequence of rooms in the order `liberarArvore` frees them and leaves the heap untouched.
- `main` is not modelled. It only chains `montarMapa`, `explorarSalas` and `liberarArvore`, each of which is modelled.
- The name buffer: a room keeps its 64 bytes as a sequence. They are written once through an array by `StrNCopy` and never change afterwards.
- Characters: a C `char` is a character whose code is below 256. Characters of the input are not restricted.
- Mansion.AttachRooms: for level 1, `montarMapa` creates both rooms before linking either. The model links each room right after creating it. Creating a room touches no existing room, so both orders leave the same links.
