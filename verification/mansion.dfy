/** The mansion as the program keeps it: heap rooms (`Sala`) linked by their
    left and right paths, the fixed map builder, the exploration loop over
    them, and the post-order teardown. Each room carries, as ghost state,
    the rooms it owns and the `RoomTree` value it stands for. */
module Mansion {
  import opened CStrings
  import opened RoomTree
  import opened Navigation

  /** Size of a room's name buffer (`char nome[64]`). */
  const NameBufferSize: nat := MaxNameLength + 1

  /** The 64 bytes `criarSala` leaves in the buffer for `nome`: up to 63
      bytes copied and NUL-padded by `strncpy`, then the final terminator. */
  function NameBuffer(nome: seq<CChar>): (buf: seq<CChar>)
    ensures |buf| == NameBufferSize && buf[NameBufferSize - 1] == NUL
  {
    Padded(nome, MaxNameLength) + [NUL]
  }

  /** The stored buffer holds, and so denotes, the first min(|nome|, 63)
      bytes of the name. */
  lemma NameBufferHoldsTruncated(nome: seq<CChar>)
    requires NoNul(nome)
    ensures Holds(NameBuffer(nome), Truncated(nome))
    ensures CString(NameBuffer(nome)) == Truncated(nome)
  {
    var k := Min(|nome|, MaxNameLength);
    assert NameBuffer(nome)[..k] == nome[..k];
    HoldsIffDenotes(NameBuffer(nome), Truncated(nome));
  }

  class Sala {
    var nome: seq<CChar>
    var esq: Sala?
    var dir: Sala?

    ghost var Repr: set<Sala>
    ghost var Tree: RoomTree

    /** The rooms below this one form a tree this room owns: no room is
        shared between the two sides or reachable back from below. */
    ghost predicate Valid()
      reads this, Repr
      ensures Valid() ==> this in Repr && Tree.Room? && Holds(nome, Tree.name)
      decreases Repr
    {
      && this in Repr
      && |nome| == NameBufferSize
      && (esq != null ==> esq in Repr && esq.Repr <= Repr && this !in esq.Repr && esq.Valid())
      && (dir != null ==> dir in Repr && dir.Repr <= Repr && this !in dir.Repr && dir.Valid())
      && (esq != null && dir != null ==> esq.Repr !! dir.Repr)
      && Repr == {this} + ReprOf(esq) + ReprOf(dir)
      && Tree.Room? && Holds(nome, Tree.name)
      && Tree.left == TreeOf(esq) && Tree.right == TreeOf(dir)
    }

    /** A room as `criarSala` leaves it: no paths, owning only itself. */
    ghost predicate IsFreshRoom()
      reads this
    {
      esq == null && dir == null && Repr == {this} && |nome| == NameBufferSize &&
      Tree.Room? && Holds(nome, Tree.name) && Tree.left.Empty? && Tree.right.Empty?
    }

    /** The fields as `criarSala` sets them: no paths, and the buffer
        `strncpy` fills with at most 63 bytes of the name, terminated.
        `CreateRoom` is the `criarSala` entry point that calls it. */
    constructor (name: seq<CChar>)
      requires NoNul(name)
      ensures |nome| == NameBufferSize && nome[..MaxNameLength] == Padded(name, MaxNameLength)
      ensures nome[MaxNameLength] == NUL && esq == null && dir == null
      ensures Repr == {this} && Tree == Room(Truncated(name), Empty, Empty)
      ensures IsFreshRoom()
    {
      var buf := new CChar[NameBufferSize];
      StrNCopy(buf, name, NameBufferSize - 1);
      buf[NameBufferSize - 1] := NUL;
      var stored := buf[..];
      nome := stored;
      esq, dir := null, null;
      Repr := {this};
      assert stored == NameBuffer(name);
      NameBufferHoldsTruncated(name);
      Tree := Room(Truncated(name), Empty, Empty);
    }
  }

  lemma FreshRoomIsValid(s: Sala)
    requires s.IsFreshRoom()
    ensures s.Valid()
  {
  }

  ghost function ReprOf(s: Sala?): set<Sala>
    reads s
  {
    if s == null then {} else s.Repr
  }

  ghost function TreeOf(s: Sala?): RoomTree
    reads s
  {
    if s == null then Empty else s.Tree
  }

  /** Every room a valid room owns is itself valid and owns only rooms
      the first one owns. */
  lemma {:induction false} OwnedRoomIsValid(s: Sala, n: Sala)
    requires s.Valid() && n in s.Repr
    ensures n.Valid() && n.Repr <= s.Repr
    decreases s.Repr
  {
    if n != s {
      if s.esq != null && n in s.esq.Repr {
        OwnedRoomIsValid(s.esq, n);
      } else {
        OwnedRoomIsValid(s.dir, n);
      }
    }
  }

  // ---------------------------------------------------------------------
  // The fixed map

  function Leaf(name: seq<CChar>): RoomTree {
    Room(name, Empty, Empty)
  }

  // Room names, as the program spells them
  const HallName: seq<CChar> := "Hall de Entrada"
  const SalaDeEstarName: seq<CChar> := "Sala de Estar"
  const JardimName: seq<CChar> := "Jardim"
  const CozinhaName: seq<CChar> := "Cozinha"
  const BibliotecaName: seq<CChar> := "Biblioteca"
  const GaragemName: seq<CChar> := "Garagem"
  const EscritorioName: seq<CChar> := "Escritorio"

  /** Every name of the map fits in a room's buffer, so the rooms keep
      their whole names and form the map. */
  lemma MapNamesFit(t: RoomTree)
    requires t == Room(Truncated(HallName),
                       Room(Truncated(SalaDeEstarName), Leaf(Truncated(CozinhaName)), Leaf(Truncated(BibliotecaName))),
                       Room(Truncated(JardimName), Leaf(Truncated(GaragemName)), Leaf(Truncated(EscritorioName))))
    ensures t == MansionMap()
  {
    forall name | |name| <= MaxNameLength
      ensures Truncated(name) == name
    {
    }
  }

  /** The seven-room map `montarMapa` builds. */
  function MansionMap(): (m: RoomTree)
    ensures Perfect(m, 2)
  {
    Room(HallName,
      Room(SalaDeEstarName, Leaf(CozinhaName), Leaf(BibliotecaName)),
      Room(JardimName, Leaf(GaragemName), Leaf(EscritorioName)))
  }

  /** `criarSala`: a new room named after `nome` (truncated to the
      buffer), with no paths. */
  method CreateRoom(nome: seq<CChar>) returns (s: Sala)
    requires NoNul(nome)
    ensures fresh(s) && s.IsFreshRoom()
    ensures s.Tree == Leaf(Truncated(nome))
  {
    s := new Sala(nome);
  }

  /** `montarMapa`: creates the seven rooms and links them in the order the
      program does, then returns the hall. */
  method BuildMap() returns (hall: Sala)
    ensures hall.Valid() && fresh(hall.Repr)
    ensures hall.Tree == MansionMap()
  {
    // Level 0
    hall := CreateRoom(HallName);
    // Level 1
    var salaEstar, jardim := AttachRooms(hall, SalaDeEstarName, JardimName);
    // Level 2
    AttachLevelTwo(hall, salaEstar, jardim);
    MapNamesFit(hall.Tree);
  }

  /** Level 2 of the map: two new rooms below each room of level 1, left
      side first. The hall then owns the seven rooms. */
  method AttachLevelTwo(hall: Sala, salaEstar: Sala, jardim: Sala)
    requires hall !in {salaEstar, jardim} && salaEstar != jardim
    requires salaEstar.IsFreshRoom() && jardim.IsFreshRoom()
    requires hall.esq == salaEstar && hall.dir == jardim
    requires |hall.nome| == NameBufferSize
    requires hall.Tree.Room? && Holds(hall.nome, hall.Tree.name)
    modifies hall`Repr, hall`Tree, salaEstar, jardim
    ensures hall.Valid() && fresh(hall.Repr - {hall, salaEstar, jardim})
    ensures hall.Repr >= {hall, salaEstar, jardim}
    ensures hall.Tree == Room(old(hall.Tree.name),
                              Room(old(salaEstar.Tree.name), Leaf(Truncated(CozinhaName)), Leaf(Truncated(BibliotecaName))),
                              Room(old(jardim.Tree.name), Leaf(Truncated(GaragemName)), Leaf(Truncated(EscritorioName))))
  {
    // Left
    var cozinha, biblioteca := AttachRooms(salaEstar, CozinhaName, BibliotecaName);
    // Right
    var garagem, escritorio := AttachRooms(jardim, GaragemName, EscritorioName);
    assert fresh({cozinha, biblioteca, garagem, escritorio});
    OwnMap(hall, salaEstar, jardim, cozinha, biblioteca, garagem, escritorio);
  }

  /** Gives `p` two new rooms as its left and right paths. `montarMapa`
      creates and links the rooms of level 2 one after the other, and
      creates both rooms of level 1 before linking them; creating a room
      does not touch `p`, so both orders leave the same links. */
  method AttachRooms(p: Sala, leftName: seq<CChar>, rightName: seq<CChar>)
      returns (l: Sala, r: Sala)
    requires NoNul(leftName) && NoNul(rightName)
    modifies p`esq, p`dir
    ensures fresh(l) && fresh(r) && l != r && p !in {l, r}
    ensures p.esq == l && p.dir == r
    ensures l.IsFreshRoom() && l.Tree == Room(Truncated(leftName), Empty, Empty)
    ensures r.IsFreshRoom() && r.Tree == Room(Truncated(rightName), Empty, Empty)
  {
    l := CreateRoom(leftName);
    p.esq := l;
    r := CreateRoom(rightName);
    p.dir := r;
  }

  /** Records what each of the three linked rooms of the map owns and the
      tree it stands for; the hall is then valid. */
  ghost method OwnMap(hall: Sala, salaEstar: Sala, jardim: Sala,
                      cozinha: Sala, biblioteca: Sala, garagem: Sala, escritorio: Sala)
    requires hall !in {salaEstar, jardim, cozinha, biblioteca, garagem, escritorio}
    requires {salaEstar, cozinha, biblioteca} !! {jardim, garagem, escritorio}
    requires salaEstar !in {cozinha, biblioteca} && cozinha != biblioteca
    requires jardim !in {garagem, escritorio} && garagem != escritorio
    requires cozinha.IsFreshRoom() && biblioteca.IsFreshRoom()
    requires garagem.IsFreshRoom() && escritorio.IsFreshRoom()
    requires salaEstar.esq == cozinha && salaEstar.dir == biblioteca
    requires jardim.esq == garagem && jardim.dir == escritorio
    requires hall.esq == salaEstar && hall.dir == jardim
    requires |hall.nome| == |salaEstar.nome| == |jardim.nome| == NameBufferSize
    requires hall.Tree.Room? && Holds(hall.nome, hall.Tree.name)
    requires salaEstar.Tree.Room? && Holds(salaEstar.nome, salaEstar.Tree.name)
    requires jardim.Tree.Room? && Holds(jardim.nome, jardim.Tree.name)
    modifies hall`Repr, hall`Tree, salaEstar`Repr, salaEstar`Tree, jardim`Repr, jardim`Tree
    ensures hall.Valid()
    ensures hall.Repr == {hall, salaEstar, jardim, cozinha, biblioteca, garagem, escritorio}
    ensures hall.Tree == Room(old(hall.Tree.name),
                              Room(old(salaEstar.Tree.name), cozinha.Tree, biblioteca.Tree),
                              Room(old(jardim.Tree.name), garagem.Tree, escritorio.Tree))
  {
    salaEstar.Repr := {salaEstar, cozinha, biblioteca};
    salaEstar.Tree := Room(salaEstar.Tree.name, cozinha.Tree, biblioteca.Tree);
    jardim.Repr := {jardim, garagem, escritorio};
    jardim.Tree := Room(jardim.Tree.name, garagem.Tree, escritorio.Tree);
    hall.Repr := {hall} + salaEstar.Repr + jardim.Repr;
    hall.Tree := Room(hall.Tree.name, salaEstar.Tree, jardim.Tree);
    FreshRoomIsValid(cozinha);
    FreshRoomIsValid(biblioteca);
    FreshRoomIsValid(garagem);
    FreshRoomIsValid(escritorio);
    LinkedRoomIsValid(salaEstar);
    LinkedRoomIsValid(jardim);
    LinkedRoomIsValid(hall);
  }

  /** A room whose two paths are valid, disjoint and do not lead back to it
      is valid once it owns them and stands for the tree they form. */
  lemma LinkedRoomIsValid(s: Sala)
    requires s.esq != null && s.dir != null
    requires s.esq.Valid() && s.dir.Valid() && s.esq.Repr !! s.dir.Repr
    requires s !in s.esq.Repr && s !in s.dir.Repr
    requires |s.nome| == NameBufferSize
    requires s.Repr == {s} + s.esq.Repr + s.dir.Repr
    requires s.Tree.Room? && Holds(s.nome, s.Tree.name)
    requires s.Tree.left == s.esq.Tree && s.Tree.right == s.dir.Tree
    ensures s.Valid()
  {
  }

  /** Every room with a path has both, and every leaf is two moves from the
      hall: the map is full and perfect of height 2. */
  lemma {:induction false} MansionIsPerfect()
    ensures Perfect(MansionMap(), 2)
    ensures Height(MansionMap()) == 2 && Size(MansionMap()) == 7
    ensures forall r :: r in Rooms(MansionMap()) ==> IsLeaf(r) || (r.left.Room? && r.right.Room?)
  {
    var m := MansionMap();
    assert Perfect(m.left, 1) && Perfect(m.right, 1);
    PerfectSize(m, 2);
    forall r | r in Rooms(m)
      ensures IsLeaf(r) || (r.left.Room? && r.right.Room?)
    {
      PerfectIsFull(m, 2, r);
    }
  }

  // Sample explorations of the map

  /** "e", "e": through the living room to the kitchen, a dead end. */
  lemma ExploreToKitchen()
    ensures Explore(MansionMap(), "ee") ==
              Run([MansionMap(), MansionMap().left, Leaf(CozinhaName)], [Move(Left), Move(Left)], DeadEnd)
  {
  }

  /** "D", "d", "e": the walk ends at the study; the last key is never read. */
  lemma ExploreToStudy()
    ensures Explore(MansionMap(), "Dde") ==
              Run([MansionMap(), MansionMap().right, Leaf(EscritorioName)], [Move(Right), Move(Right)], DeadEnd)
  {
  }

  /** "s" at the hall ends the walk there. */
  lemma QuitAtHall()
    ensures Explore(MansionMap(), "s") == Run([MansionMap()], [Quit], PlayerQuit)
  {
  }

  /** An unknown key leaves the cursor in place; then the input runs out. */
  lemma InvalidKeyThenExhausted()
    ensures Explore(MansionMap(), "xd") ==
              Run([MansionMap(), MansionMap().right], [InvalidOption, Move(Right)], InputExhausted)
  {
  }

  // ---------------------------------------------------------------------
  // Exploration over the heap rooms

  /** `explorarSalas`: the cursor starts at `atual` and reads one character
      per round. The rooms it stops at, the decisions it takes and the
      reason it stops are exactly those of `Explore` on the tree `atual`
      stands for; each room it reaches is owned by `atual` and is a path of
      the room before it. */
  method ExploreRooms(atual: Sala?, input: seq<char>)
      returns (visited: seq<Sala>, decisions: seq<Decision>, reason: StopReason)
    requires atual != null ==> atual.Valid()
    ensures var run := Explore(TreeOf(atual), input);
      && Denotes(visited, run.path)
      && decisions == run.decisions
      && reason == run.reason
    ensures atual != null ==> OwnedBy(visited, atual)
    ensures Descends(visited)
  {
    if atual == null {
      return [], [], NoRoom;
    }
    ghost var whole := Explore(atual.Tree, input);
    ghost var before: seq<RoomTree> := [];
    var sala: Sala := atual;
    var i := 0;
    visited, decisions := [sala], [];
    reason := InputExhausted;
    ResumesAtStart(atual.Tree, input);
    while true
      invariant Walking(atual, whole, input, i, sala, visited, before, decisions)
      decreases |input| - i
    {
      var temEsq := sala.esq != null;
      var temDir := sala.dir != null;
      WalkStops(atual, whole, input, i, sala, visited, before, decisions);
      if !temEsq && !temDir {
        reason := DeadEnd;
        break;
      }
      if i == |input| {
        reason := InputExhausted;
        break;
      }
      var ch := input[i];
      var d := Decide(temEsq, temDir, ch);
      if d == Quit {
        decisions := decisions + [d];
        reason := PlayerQuit;
        break;
      }
      var next := if d == Move(Left) then sala.esq else if d == Move(Right) then sala.dir else sala;
      WalkGoesOn(atual, whole, input, i, sala, visited, before, decisions, d, next);
      i := i + 1;
      before := if d.Move? then before + [sala.Tree] else before;
      visited := if d.Move? then visited + [next] else visited;
      decisions := decisions + [d];
      sala := next;
    }
  }

  /** The state of `explorarSalas` after reading `i` characters: the cursor
      `sala` is a room of `atual`, `visited` is a walk down from `atual`
      ending at it, standing for `before` and then the cursor's tree, and
      exploring on from the cursor completes `whole`. */
  ghost predicate Walking(atual: Sala, whole: Run, input: seq<char>, i: int, sala: Sala,
                          visited: seq<Sala>, before: seq<RoomTree>, decisions: seq<Decision>)
    reads atual, sala, visited
  {
    && 0 <= i <= |input|
    && sala in atual.Repr
    && |visited| > 0 && visited[|visited| - 1] == sala
    && Denotes(visited, before + [sala.Tree])
    && Descends(visited) && OwnedBy(visited, atual)
    && Resumes(whole, before, decisions, sala.Tree, input[i..])
  }

  /** The three ways a round ends the exploration, each completing it. */
  lemma WalkStops(atual: Sala, whole: Run, input: seq<char>, i: int, sala: Sala,
                  visited: seq<Sala>, before: seq<RoomTree>, decisions: seq<Decision>)
    requires atual.Valid() && Walking(atual, whole, input, i, sala, visited, before, decisions)
    ensures sala.esq == null && sala.dir == null ==>
              whole == Run(before + [sala.Tree], decisions, DeadEnd)
    ensures (sala.esq != null || sala.dir != null) && i == |input| ==>
              whole == Run(before + [sala.Tree], decisions, InputExhausted)
    ensures (sala.esq != null || sala.dir != null) && i < |input| &&
            Decide(sala.esq != null, sala.dir != null, input[i]) == Quit ==>
              whole == Run(before + [sala.Tree], decisions + [Quit], PlayerQuit)
  {
    OwnedRoomIsValid(atual, sala);
    ResumesAtStop(whole, before, decisions, sala.Tree, input[i..]);
    if (sala.esq != null || sala.dir != null) && i < |input| {
      ResumesAfterRound(whole, before, decisions, sala.Tree, input[i..]);
    }
  }

  /** A round that reads a character other than a quit keeps the state:
      a move puts the cursor on the path taken, anything else leaves it. */
  lemma WalkGoesOn(atual: Sala, whole: Run, input: seq<char>, i: int, sala: Sala,
                   visited: seq<Sala>, before: seq<RoomTree>, decisions: seq<Decision>,
                   d: Decision, next: Sala)
    requires atual.Valid() && Walking(atual, whole, input, i, sala, visited, before, decisions)
    requires (sala.esq != null || sala.dir != null) && i < |input|
    requires d == Decide(sala.esq != null, sala.dir != null, input[i]) && d != Quit
    requires next == if d == Move(Left) then sala.esq else if d == Move(Right) then sala.dir else sala
    ensures Walking(atual, whole, input, i + 1, next,
                    if d.Move? then visited + [next] else visited,
                    if d.Move? then before + [sala.Tree] else before,
                    decisions + [d])
  {
    OwnedRoomIsValid(atual, sala);
    ResumesAfterRound(whole, before, decisions, sala.Tree, input[i..]);
    assert input[i..][1..] == input[i + 1..];
    if d.Move? {
      WalkExtended(visited, before + [sala.Tree], next, next.Tree, atual);
    }
  }

  /** The rooms `ss` stand for the trees `ts`, one for one. */
  ghost predicate Denotes(ss: seq<Sala>, ts: seq<RoomTree>)
    reads ss
  {
    |ss| == |ts| && forall k :: 0 <= k < |ss| ==> ss[k].Tree == ts[k]
  }

  /** Each room of `ss` after the first is a path of the room before it. */
  ghost predicate Descends(ss: seq<Sala>)
    reads ss
  {
    forall k :: 0 < k < |ss| ==> ss[k] == ss[k - 1].esq || ss[k] == ss[k - 1].dir
  }

  ghost predicate OwnedBy(ss: seq<Sala>, root: Sala)
    reads root
  {
    forall k :: 0 <= k < |ss| ==> ss[k] in root.Repr
  }

  /** Taking a path from the last room of a walk extends the walk. */
  lemma WalkExtended(ss: seq<Sala>, ts: seq<RoomTree>, s: Sala, t: RoomTree, root: Sala)
    requires |ss| > 0 && Denotes(ss, ts) && Descends(ss) && OwnedBy(ss, root)
    requires s == ss[|ss| - 1].esq || s == ss[|ss| - 1].dir
    requires s.Tree == t && s in root.Repr
    ensures Denotes(ss + [s], ts + [t]) && Descends(ss + [s]) && OwnedBy(ss + [s], root)
  {
  }

  /** The walk so far (`before`, `decisions`) followed by exploring from
      `room` over `suffix` is the whole exploration. */
  ghost predicate Resumes(whole: Run, before: seq<RoomTree>, decisions: seq<Decision>,
                          room: RoomTree, suffix: seq<char>)
  {
    var rest := Explore(room, suffix);
    && whole.path == before + rest.path
    && whole.decisions == decisions + rest.decisions
    && whole.reason == rest.reason
  }

  lemma ResumesAtStart(room: RoomTree, input: seq<char>)
    ensures Resumes(Explore(room, input), [], [], room, input)
  {
  }

  /** A round that does not quit continues the same exploration from the
      room the cursor is on afterwards. */
  lemma ResumesAfterRound(whole: Run, before: seq<RoomTree>, decisions: seq<Decision>,
                          room: RoomTree, suffix: seq<char>)
    requires room.Room? && !IsLeaf(room) && suffix != []
    requires Resumes(whole, before, decisions, room, suffix)
    ensures var d := DecisionIn(room, suffix[0]);
      d != Quit ==>
        Resumes(whole, if d.Move? then before + [room] else before, decisions + [d],
                if d.Move? then Child(room, d.dir) else room, suffix[1..])
    ensures var d := DecisionIn(room, suffix[0]);
      d == Quit ==> whole == Run(before + [room], decisions + [d], PlayerQuit)
  {
    var d := DecisionIn(room, suffix[0]);
    ExploreRound(room, suffix);
    if d != Quit {
      var rest := Explore(if d.Move? then Child(room, d.dir) else room, suffix[1..]);
      if d.Move? {
        assert before + ([room] + rest.path) == (before + [room]) + rest.path;
      }
      assert decisions + ([d] + rest.decisions) == (decisions + [d]) + rest.decisions;
    }
  }

  /** Where the loop stops without reading: at a room with no paths, or
      with no input left. */
  lemma ResumesAtStop(whole: Run, before: seq<RoomTree>, decisions: seq<Decision>,
                      room: RoomTree, suffix: seq<char>)
    requires room.Room? && Resumes(whole, before, decisions, room, suffix)
    ensures IsLeaf(room) ==> whole == Run(before + [room], decisions, DeadEnd)
    ensures !IsLeaf(room) && suffix == [] ==> whole == Run(before + [room], decisions, InputExhausted)
  {
  }

  // ---------------------------------------------------------------------
  // Teardown

  /** `liberarArvore`, as the order in which it frees rooms: nothing for a
      null root; otherwise every room the root owns exactly once, each
      after the rooms below it, in the post-order of the tree the root
      stands for. */
  method ReleaseTree(raiz: Sala?) returns (freed: seq<Sala>)
    requires raiz != null ==> raiz.Valid()
    ensures raiz == null ==> freed == []
    ensures Released(raiz, freed)
    decreases TreeOf(raiz)
  {
    if raiz == null {
      return [];
    }
    var l := ReleaseTree(raiz.esq);
    var r := ReleaseTree(raiz.dir);
    freed := l + r + [raiz];
    ReleasedInOrder(raiz, l, r);
  }

  /** `freed` frees every room `raiz` owns and nothing else, no room twice,
      each room after its paths, in the post-order of the tree `raiz`
      stands for. */
  ghost predicate Released(raiz: Sala?, freed: seq<Sala>)
    reads raiz, freed
  {
    && (forall n :: n in freed ==> n in ReprOf(raiz))
    && (forall n :: n in ReprOf(raiz) ==> n in freed)
    && Distinct(freed) && ChildrenFirst(freed)
    && Denotes(freed, PostOrder(TreeOf(raiz)))
  }

  /** No room is freed twice. */
  ghost predicate Distinct(ss: seq<Sala>) {
    forall i, j :: 0 <= i < j < |ss| ==> ss[i] != ss[j]
  }

  /** A room is freed only after both of its paths. */
  ghost predicate ChildrenFirst(ss: seq<Sala>)
    reads ss
  {
    forall i, j :: 0 <= i < |ss| && 0 <= j < |ss| && (ss[i] == ss[j].esq || ss[i] == ss[j].dir) ==> i < j
  }

  /** Freeing the left side, then the right side, then the root frees the
      root's rooms once each, children first, in post-order. */
  lemma ReleasedInOrder(raiz: Sala, l: seq<Sala>, r: seq<Sala>)
    requires raiz.Valid() && Released(raiz.esq, l) && Released(raiz.dir, r)
    ensures Released(raiz, l + r + [raiz])
  {
    ReleasedOnce(raiz, l, r);
    ReleasedChildrenFirst(raiz, l, r);
    ReleasedInPostOrder(raiz, l, r);
  }

  lemma ReleasedOnce(raiz: Sala, l: seq<Sala>, r: seq<Sala>)
    requires raiz.Valid()
    requires (forall n :: n in l ==> n in ReprOf(raiz.esq)) && (forall n :: n in ReprOf(raiz.esq) ==> n in l)
    requires (forall n :: n in r ==> n in ReprOf(raiz.dir)) && (forall n :: n in ReprOf(raiz.dir) ==> n in r)
    requires Distinct(l) && Distinct(r)
    ensures forall n :: n in l + r + [raiz] ==> n in ReprOf(raiz)
    ensures forall n :: n in ReprOf(raiz) ==> n in l + r + [raiz]
    ensures Distinct(l + r + [raiz])
  {
    var f := l + r + [raiz];
    forall i, j | 0 <= i < j < |f|
      ensures f[i] != f[j]
    {
      if j < |l| {
        assert f[i] == l[i] && f[j] == l[j];
      } else if j < |l| + |r| {
        if i < |l| {
          assert f[i] in l && f[j] in r;
        } else {
          assert f[i] == r[i - |l|] && f[j] == r[j - |l|];
        }
      } else {
        assert f[i] in l || f[i] in r;
      }
    }
  }

  lemma ReleasedInPostOrder(raiz: Sala, l: seq<Sala>, r: seq<Sala>)
    requires raiz.Valid() && Released(raiz.esq, l) && Released(raiz.dir, r)
    ensures Denotes(l + r + [raiz], PostOrder(TreeOf(raiz)))
  {
    var f, t := l + r + [raiz], PostOrder(raiz.Tree);
    assert t == PostOrder(TreeOf(raiz.esq)) + PostOrder(TreeOf(raiz.dir)) + [raiz.Tree];
    forall k | 0 <= k < |f|
      ensures f[k].Tree == t[k]
    {
      if k < |l| {
        assert f[k] == l[k];
      } else if k < |l| + |r| {
        assert f[k] == r[k - |l|];
      }
    }
  }

  lemma ReleasedChildrenFirst(raiz: Sala, l: seq<Sala>, r: seq<Sala>)
    requires raiz.Valid() && Released(raiz.esq, l) && Released(raiz.dir, r)
    ensures ChildrenFirst(l + r + [raiz])
  {
    var f := l + r + [raiz];
    forall i, j | 0 <= i < |f| && 0 <= j < |f| && (f[i] == f[j].esq || f[i] == f[j].dir)
      ensures i < j
    {
      ChildrenFreedFirst(raiz, l, r, i, j);
    }
  }

  lemma ChildrenFreedFirst(raiz: Sala, l: seq<Sala>, r: seq<Sala>, i: nat, j: nat)
    requires raiz.Valid()
    requires forall n :: n in l <==> n in ReprOf(raiz.esq)
    requires forall n :: n in r <==> n in ReprOf(raiz.dir)
    requires ChildrenFirst(l) && ChildrenFirst(r)
    requires i < |l + r + [raiz]| && j < |l + r + [raiz]|
    requires var f := l + r + [raiz]; f[i] == f[j].esq || f[i] == f[j].dir
    ensures i < j
  {
    var f := l + r + [raiz];
    var c, p := f[i], f[j];
    if j < |l| {
      assert p == l[j] && p in l;
      OwnedRoomIsValid(raiz.esq, p);
      assert c in raiz.esq.Repr;
      assert c !in r && c != raiz;
      assert i < |l| && l[i] == c;
    } else if j < |l| + |r| {
      assert p == r[j - |l|] && p in r;
      OwnedRoomIsValid(raiz.dir, p);
      assert c in raiz.dir.Repr;
      assert c !in l && c != raiz;
      assert |l| <= i < |l| + |r| && r[i - |l|] == c;
    } else {
      assert p == raiz && c != raiz;
    }
  }
}
