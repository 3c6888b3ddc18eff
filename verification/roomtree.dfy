/** The mansion map as a value: a binary tree of named rooms. `Empty` is the
    null `Sala*`; a `Room` carries the name its buffer denotes and its left
    (`esq`) and right (`dir`) paths. */
module RoomTree {
  import opened CStrings

  datatype RoomTree = Empty | Room(name: seq<CChar>, left: RoomTree, right: RoomTree)

  /** Longest name a room keeps: its buffer has 64 bytes, the last one the
      terminator. */
  const MaxNameLength: nat := 63

  /** The name `criarSala` stores for `nome`. */
  function Truncated(nome: seq<CChar>): (s: seq<CChar>)
    ensures s <= nome && |s| <= MaxNameLength
    ensures |nome| <= MaxNameLength ==> s == nome
    ensures |nome| > MaxNameLength ==> |s| == MaxNameLength
  {
    nome[..Min(|nome|, MaxNameLength)]
  }

  predicate IsLeaf(t: RoomTree) {
    t.Room? && t.left.Empty? && t.right.Empty?
  }

  predicate IsChild(c: RoomTree, p: RoomTree) {
    p.Room? && c.Room? && (c == p.left || c == p.right)
  }

  /** Number of rooms. */
  function Size(t: RoomTree): nat {
    if t.Empty? then 0 else 1 + Size(t.left) + Size(t.right)
  }

  /** Edges on the longest downward path; -1 for the empty tree, 0 for a leaf. */
  function Height(t: RoomTree): int {
    if t.Empty? then -1 else 1 + Max(Height(t.left), Height(t.right))
  }

  function Max(a: int, b: int): int {
    if a >= b then a else b
  }

  /** Every room of `t`: the rooms reachable from its root. */
  function Rooms(t: RoomTree): (s: set<RoomTree>)
    ensures t.Room? ==> t in s
    ensures forall r :: r in s ==> r.Room?
  {
    if t.Empty? then {} else {t} + Rooms(t.left) + Rooms(t.right)
  }

  /** Full and perfect of height `h`: every room above depth `h` has both
      paths, every room at depth `h` has neither. */
  predicate Perfect(t: RoomTree, h: nat) {
    t.Room? &&
    if h == 0 then IsLeaf(t) else Perfect(t.left, h - 1) && Perfect(t.right, h - 1)
  }

  function Pow2(n: nat): (p: nat)
    ensures p >= 1
  {
    if n == 0 then 1 else 2 * Pow2(n - 1)
  }

  /** Rooms in the order `liberarArvore` frees them: left subtree, right
      subtree, then the room itself. */
  function PostOrder(t: RoomTree): (p: seq<RoomTree>)
    ensures |p| == Size(t)
    ensures t.Room? ==> p[|p| - 1] == t
  {
    if t.Empty? then [] else PostOrder(t.left) + PostOrder(t.right) + [t]
  }

  // ---------------------------------------------------------------------
  // Properties of the tree shape

  /** A child is strictly lower than its parent. */
  lemma ChildIsLower(c: RoomTree, p: RoomTree)
    requires IsChild(c, p)
    ensures Height(c) < Height(p) && Height(c) >= 0
  {
  }

  /** A child's rooms are rooms of its parent. */
  lemma {:induction false} ChildRoomsIncluded(c: RoomTree, p: RoomTree)
    requires IsChild(c, p)
    ensures Rooms(c) <= Rooms(p)
  {
  }

  lemma {:induction false} HeightOfRoom(t: RoomTree)
    ensures t.Room? ==> Height(t) >= 0
    ensures IsLeaf(t) <==> t.Room? && Height(t) == 0
  {
    if t.Room? {
      HeightOfRoom(t.left);
      HeightOfRoom(t.right);
    }
  }

  /** A perfect tree of height `h` has height `h` and `2^(h+1) - 1` rooms. */
  lemma {:induction false} PerfectSize(t: RoomTree, h: nat)
    requires Perfect(t, h)
    ensures Height(t) == h
    ensures Size(t) == Pow2(h + 1) - 1
  {
    if h > 0 {
      PerfectSize(t.left, h - 1);
      PerfectSize(t.right, h - 1);
    }
  }

  /** In a perfect tree every room has either both paths or none. */
  lemma {:induction false} PerfectIsFull(t: RoomTree, h: nat, r: RoomTree)
    requires Perfect(t, h) && r in Rooms(t)
    ensures IsLeaf(r) || (r.left.Room? && r.right.Room?)
  {
    if r != t {
      if r in Rooms(t.left) {
        PerfectIsFull(t.left, h - 1, r);
      } else {
        PerfectIsFull(t.right, h - 1, r);
      }
    }
  }

  /** A direct child of a perfect room of height `h` is a room, and
      perfect of height `h - 1`. */
  lemma {:induction false} PerfectChild(c: RoomTree, p: RoomTree, h: nat)
    requires Perfect(p, h) && IsChild(c, p)
    ensures h > 0 && Perfect(c, h - 1)
  {
  }

  /** Teardown reaches as many rooms as the tree has, every room of the
      tree and nothing else, and the root last. */
  lemma {:induction false} PostOrderCoversTree(t: RoomTree)
    ensures |PostOrder(t)| == Size(t)
    ensures forall r :: r in PostOrder(t) <==> r in Rooms(t)
    ensures t.Room? ==> PostOrder(t)[|PostOrder(t)| - 1] == t
  {
    if t.Room? {
      PostOrderCoversTree(t.left);
      PostOrderCoversTree(t.right);
    }
  }

  lemma {:induction false} RoomsAreLower(t: RoomTree, r: RoomTree)
    requires r in Rooms(t)
    ensures Height(r) <= Height(t)
  {
    if r != t {
      if r in Rooms(t.left) {
        RoomsAreLower(t.left, r);
      } else {
        RoomsAreLower(t.right, r);
      }
    }
  }

  lemma {:induction false} ChildOfRoomIsRoom(t: RoomTree, p: RoomTree, c: RoomTree)
    requires p in Rooms(t) && IsChild(c, p)
    ensures c in Rooms(t)
  {
    if p != t {
      if p in Rooms(t.left) {
        ChildOfRoomIsRoom(t.left, p, c);
      } else {
        ChildOfRoomIsRoom(t.right, p, c);
      }
    }
  }
}
