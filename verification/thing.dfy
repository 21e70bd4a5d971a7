/** Things and their containers (thing.cpp, class Thing).

    Every item, creature and tile is a thing; a thing may sit in a parent
    cylinder (a tile, a container, a player's inventory). The parent links
    form a forest whose roots are normally tiles. A `World` maps thing ids to
    nodes; each node carries a kind tag in place of `dynamic_cast`, its parent
    link, a rank that strictly grows from parent to child (so every walk up
    the parent chain ends), its use count, and a destroyed flag in place of
    `delete this`. */
module Things {
  import opened Wrappers
  import opened Positions

  type Id = nat

  /** `Tile` carries its map position and what its own `isRemoved` override
      answers; `Holder` is any other cylinder; `Plain` is not a cylinder. */
  datatype Kind = Tile(pos: Position, removedFlag: bool) | Holder | Plain

  predicate IsCylinder(k: Kind) {
    !k.Plain?
  }

  datatype Node = Node(kind: Kind, parent: Option<Id>, rank: nat, useCount: int, destroyed: bool)

  type World = map<Id, Node>

  /** Parent links point into the world, only to cylinders, and to nodes of
      smaller rank; tiles are roots. */
  predicate Valid(w: World) {
    forall x :: x in w ==>
      && (w[x].kind.Tile? ==> w[x].parent.None?)
      && (w[x].parent.Some? ==>
            && w[x].parent.value in w
            && IsCylinder(w[w[x].parent.value].kind)
            && w[w[x].parent.value].rank < w[x].rank)
  }

  // ---------------------------------------------------------------------
  // Lifetime
  // ---------------------------------------------------------------------

  /** The constructor: no parent, use count 0. */
  function NewThing(kind: Kind, rank: nat): (n: Node)
    ensures n.parent.None? && n.useCount == 0 && !n.destroyed && n.kind == kind
  {
    Node(kind, None, rank, 0, false)
  }

  /** `useThing2`. */
  function UseThing(n: Node): (r: Node)
    requires !n.destroyed
    ensures r.useCount == n.useCount + 1
    ensures r == n.(useCount := r.useCount)
  {
    n.(useCount := n.useCount + 1)
  }

  /** `releaseThing2`: the thing is destroyed once its count drops to 0 or
      below. A destroyed thing must not be used again. */
  function ReleaseThing(n: Node): (r: Node)
    requires !n.destroyed
    ensures r.useCount == n.useCount - 1
    ensures r.destroyed <==> r.useCount <= 0
    ensures r == n.(useCount := r.useCount, destroyed := r.destroyed)
  {
    var count := n.useCount - 1;
    n.(useCount := count, destroyed := count <= 0)
  }

  /** A use followed by a release restores the count, and destroys the thing
      exactly when the count was not positive before. */
  lemma UseThenRelease(n: Node)
    requires !n.destroyed
    ensures ReleaseThing(UseThing(n)).useCount == n.useCount
    ensures ReleaseThing(UseThing(n)).destroyed <==> n.useCount <= 0
    ensures ReleaseThing(UseThing(n)) == n.(destroyed := n.useCount <= 0)
  {
  }

  /** A fresh thing used once is destroyed by its first release; used twice,
      it survives the first release. */
  lemma FreshThingDiesOnFirstRelease(kind: Kind, rank: nat)
    ensures ReleaseThing(UseThing(NewThing(kind, rank))).destroyed
    ensures !UseThing(UseThing(NewThing(kind, rank))).destroyed
    ensures !ReleaseThing(UseThing(UseThing(NewThing(kind, rank)))).destroyed
  {
  }

  // ---------------------------------------------------------------------
  // The parent chain
  // ---------------------------------------------------------------------

  /** The end of the parent chain. */
  function Root(w: World, x: Id): (r: Id)
    requires Valid(w) && x in w
    ensures r in w && w[r].parent.None?
    decreases w[x].rank
  {
    if w[x].parent.None? then x else Root(w, w[x].parent.value)
  }

  /** The thing on the chain whose parent is the root; `x` itself if `x`'s
      parent is the root. Any other answer is an ancestor of `x`, hence a
      cylinder. */
  function ChildOfRoot(w: World, x: Id): (c: Id)
    requires Valid(w) && x in w && w[x].parent.Some?
    ensures c in w && w[c].parent == Some(Root(w, x))
    ensures c == x || IsCylinder(w[c].kind)
    decreases w[x].rank
  {
    var p := w[x].parent.value;
    if w[p].parent.None? then x else ChildOfRoot(w, p)
  }

  /** `y` lies strictly above `x` on its parent chain. */
  predicate Above(w: World, y: Id, x: Id)
    requires Valid(w) && x in w
    decreases w[x].rank
  {
    w[x].parent.Some? && (w[x].parent.value == y || Above(w, y, w[x].parent.value))
  }

  /** The whole chain above a thing shares its root: a thing and everything
      containing it lie on the same tile. */
  lemma {:induction false} AboveSharesRoot(w: World, y: Id, x: Id)
    requires Valid(w) && x in w && Above(w, y, x)
    ensures y in w && Root(w, y) == Root(w, x)
    ensures w[y].rank < w[x].rank
    decreases w[x].rank
  {
    var p := w[x].parent.value;
    if p != y {
      AboveSharesRoot(w, y, p);
    }
  }

  /** What `getTopParent` returns: for a thing without a parent, itself if it
      is a cylinder and nothing otherwise; for any other thing, the thing just
      below the root if that is a cylinder, and the root otherwise. So the top
      parent is a cylinder whenever there is one, and there is one unless the
      thing has no parent and is not a cylinder itself; it is the root or a
      child of the root. */
  function TopParent(w: World, x: Id): (r: Option<Id>)
    requires Valid(w) && x in w
    ensures r.None? <==> w[x].parent.None? && !IsCylinder(w[x].kind)
    ensures r.Some? ==>
              && r.value in w && IsCylinder(w[r.value].kind)
              && (r.value == Root(w, x) || w[r.value].parent == Some(Root(w, x)))
  {
    if w[x].parent.None? then
      if IsCylinder(w[x].kind) then Some(x) else None
    else
      var c := ChildOfRoot(w, x);
      if IsCylinder(w[c].kind) then Some(c) else Some(Root(w, x))
  }

  /** `getTopParent` (both the const and the non-const version; they have
      the same body): walks up the chain remembering the previous link. */
  method GetTopParent(w: World, x: Id) returns (r: Option<Id>)
    requires Valid(w) && x in w
    ensures r == TopParent(w, x)
  {
    if w[x].parent.None? {
      if IsCylinder(w[x].kind) {
        return Some(x);
      }
      return None;
    }
    var aux := w[x].parent.value;
    var prevaux: Option<Id> := if IsCylinder(w[x].kind) then Some(x) else None;
    ghost var prev := x;
    while w[aux].parent.Some?
      invariant aux in w && prev in w && w[prev].parent == Some(aux)
      invariant Root(w, aux) == Root(w, x)
      invariant ChildOfRoot(w, prev) == ChildOfRoot(w, x)
      invariant prevaux == (if IsCylinder(w[prev].kind) then Some(prev) else None)
      decreases w[aux].rank
    {
      prevaux := Some(aux);
      prev := aux;
      aux := w[aux].parent.value;
    }
    if prevaux.Some? {
      return prevaux;
    }
    return Some(aux);
  }

  /** The tile a thing lies on: the root of its chain, if that is a tile. */
  function TileOf(w: World, x: Id): (r: Option<Id>)
    requires Valid(w) && x in w
    ensures r.Some? ==> r.value in w && w[r.value].kind.Tile? && w[r.value].parent.None?
    ensures w[x].kind.Tile? && w[x].parent.None? ==> r == Some(x)
  {
    var r := Root(w, x);
    if w[r].kind.Tile? then Some(r) else None
  }

  /** `getTile` (both versions): one step up from the top parent, then a
      cast to tile. The top parent must exist. */
  method GetTile(w: World, x: Id) returns (r: Option<Id>)
    requires Valid(w) && x in w
    requires w[x].parent.Some? || IsCylinder(w[x].kind)
    ensures r == TileOf(w, x)
    ensures r.Some? ==> r.value in w && w[r.value].kind.Tile? && w[r.value].parent.None?
  {
    var top := GetTopParent(w, x);
    var c := top.value;
    if w[c].parent.Some? {
      c := w[c].parent.value;
    }
    r := if w[c].kind.Tile? then Some(c) else None;
  }

  /** `getPosition`: the position of the thing's tile; there must be one. */
  method GetPosition(w: World, x: Id) returns (pos: Position)
    requires Valid(w) && x in w
    requires w[x].parent.Some? || IsCylinder(w[x].kind)
    requires TileOf(w, x).Some?
    ensures w[Root(w, x)].kind.Tile? && pos == w[Root(w, x)].kind.pos
  {
    var t := GetTile(w, x);
    pos := w[t.value].kind.pos;
  }

  /** A thing inside another lies at the same position. */
  lemma ContainedThingsShareTile(w: World, y: Id, x: Id)
    requires Valid(w) && x in w && Above(w, y, x)
    ensures y in w && TileOf(w, y) == TileOf(w, x)
  {
    AboveSharesRoot(w, y, x);
  }

  // ---------------------------------------------------------------------
  // Removal
  // ---------------------------------------------------------------------

  /** `isRemoved`: a tile answers with its own override; any other thing is
      removed if it has no parent, and otherwise iff its parent is. So removal
      is decided at the root: a thing is removed iff its chain ends in
      something other than a tile, or in a tile that reports itself
      removed. */
  function IsRemoved(w: World, x: Id): (r: bool)
    requires Valid(w) && x in w
    ensures r <==> TileOf(w, x).None? || w[Root(w, x)].kind.removedFlag
    decreases w[x].rank
  {
    if w[x].kind.Tile? then w[x].kind.removedFlag
    else if w[x].parent.None? then true
    else IsRemoved(w, w[x].parent.value)
  }
}
