/** Houses and house doors (house.cpp, classes House and Door).

    A house has an owner, a sub-owner list and a guest list; each of its doors
    has a list of its own. The level a player holds in a house is ranked
    `NotInvited < Guest < SubOwner < Owner`. Editing a list re-parses it and
    teleports every player on the house's tiles who is no longer invited to
    the entry; a change of owner wipes every list. The player database is a
    `Directory` and the game world a `Game` value. */
module Houses {
  import opened Wrappers
  import opened Positions
  import opened AccessLists

  datatype Level = NotInvited | Guest | SubOwner | Owner

  /** The order the level comparison in `kickPlayer` relies on. */
  function Rank(l: Level): nat {
    match l
    case NotInvited => 0
    case Guest => 1
    case SubOwner => 2
    case Owner => 3
  }

  /** List ids naming the guest list and the sub-owner list; every other id
      names a door. */
  const GuestList: nat := 0x100
  const SubOwnerList: nat := 0x101

  /** A door. `house` is the id of the house the door is bound to; a door's
      list only exists once it is bound, and is empty at that moment. */
  datatype Door = Door(doorId: nat, house: Option<nat>, acl: AccessList, description: string)

  /** What `g_game` tells a house: the players online by name, the house of
      the house tile each player (by id) stands on, the creatures on every
      tile, and the players whose teleport to the house entry succeeds. */
  datatype Creature = Monster | Human(player: Player)

  datatype Game = Game(
    online: map<string, Player>,
    standingIn: map<nat, nat>,
    creaturesOn: map<Position, seq<Creature>>,
    teleportOk: set<nat>)

  datatype House = House(
    id: nat,
    name: string,
    owner: nat,
    entry: Position,
    rent: nat,
    paidUntil: nat,
    townId: nat,
    tiles: seq<Position>,
    doors: seq<Door>,
    guests: AccessList,
    subOwners: AccessList)

  /** The constructor's defaults. */
  function NewHouse(id: nat): (h: House)
    ensures h.id == id && h.owner == 0 && h.paidUntil == 0 && h.rent == 0 && h.townId == 0
    ensures h.entry == Origin && h.tiles == [] && h.doors == []
    ensures h.guests == Empty && h.subOwners == Empty
  {
    House(id, "OTServ headquarter (Flat 1, Area 42)", 0, Origin, 0, 0, 0, [], [], Empty, Empty)
  }

  // ---------------------------------------------------------------------
  // Doors
  // ---------------------------------------------------------------------

  /** `Door::setHouse`: the first binding wins; binding allocates an empty
      list. */
  function SetHouse(d: Door, house: nat): (r: Door)
    ensures d.house.Some? ==> r == d
    ensures d.house.None? ==> r == d.(house := Some(house), acl := Empty)
  {
    if d.house.Some? then d else d.(house := Some(house), acl := Empty)
  }

  /** A door is bound at most once: a second binding changes nothing, and the
      door keeps the house of its first binding. */
  lemma DoorBindsOnce(d: Door, a: nat, b: nat)
    ensures SetHouse(d, a).house.Some?
    ensures SetHouse(SetHouse(d, a), b) == SetHouse(d, a)
    ensures d.house.None? ==> SetHouse(SetHouse(d, a), b).house == Some(a)
    ensures d.house.None? ==> !IsInList(SetHouse(d, a).acl, Player("", 0, 0, 0))
  {
    EmptyAdmitsNobody(Player("", 0, 0, 0));
  }

  /** `Door::setAccessList`: ignored by a door that is not bound. */
  function DoorSetAccessList(d: Door, dir: Directory, text: string): (r: Door)
    ensures d.house.None? ==> r == d
    ensures d.house.Some? ==> r == d.(acl := ParseList(dir, text))
  {
    if d.house.None? then d else d.(acl := ParseList(dir, text))
  }

  /** `Door::getAccessList`: no list for a door that is not bound. */
  function DoorGetAccessList(d: Door): (r: Option<string>)
    ensures r.Some? <==> d.house.Some?
    ensures r.Some? ==> r.value == d.acl.text
  {
    if d.house.None? then None else Some(GetList(d.acl))
  }

  /** Writing a door's list and reading it back gives the text written; a
      door that is not bound neither stores nor returns a list. */
  lemma DoorListRoundTrip(d: Door, dir: Directory, text: string)
    ensures d.house.Some? ==> DoorGetAccessList(DoorSetAccessList(d, dir, text)) == Some(text)
    ensures d.house.None? ==> DoorGetAccessList(DoorSetAccessList(d, dir, text)) == None
  {
  }

  /** The empty list admits no player: no rule, no id. */
  lemma EmptyAdmitsNobody(p: Player)
    ensures !IsInList(Empty, p)
  {
    assert FirstMatch([], ToLower(p.name)) == None;
  }

  /** `Door::canUse`. `h` is the house the door is bound to, if any. Anyone
      passes a door of no house; a house door passes exactly the house's
      owners (the owner and administrators) and the players its own list
      admits. Sub-owners and guests of the house get no pass from their house
      rank alone. */
  function DoorCanUse(d: Door, h: House, p: Player): (r: bool)
    requires d.house.Some? ==> d.house.value == h.id
    ensures d.house.None? ==> r
    ensures d.house.Some? ==> (r <==> p.access > 2 || p.guid == h.owner || IsInList(d.acl, p))
  {
    if d.house.None? then true
    else if AccessLevel(h, p) == Owner then true
    else IsInList(d.acl, p)
  }

  // ---------------------------------------------------------------------
  // Levels and rights
  // ---------------------------------------------------------------------

  /** `getHouseAccessLevel`: administrators and the owner first, then the
      sub-owner list, then the guest list. Each level holds iff the checks
      before it fail and its own holds, so a sub-owner who is also a guest is
      a sub-owner, and a listed owner is an owner. */
  function AccessLevel(h: House, p: Player): (r: Level)
    ensures r == Owner <==> p.access > 2 || p.guid == h.owner
    ensures r == SubOwner <==> !(p.access > 2 || p.guid == h.owner) && IsInList(h.subOwners, p)
    ensures r == Guest <==>
              !(p.access > 2 || p.guid == h.owner) && !IsInList(h.subOwners, p) && IsInList(h.guests, p)
  {
    if p.access > 2 then Owner
    else if p.guid == h.owner then Owner
    else if IsInList(h.subOwners, p) then SubOwner
    else if IsInList(h.guests, p) then Guest
    else NotInvited
  }

  /** `isInvited`: being an administrator, the owner, or on one of the two
      lists. */
  function IsInvited(h: House, p: Player): (r: bool)
    ensures r <==> p.access > 2 || p.guid == h.owner || IsInList(h.subOwners, p) || IsInList(h.guests, p)
  {
    AccessLevel(h, p) != NotInvited
  }

  /** `canEditAccessList`: the guest list needs at least sub-owner rank,
      every other list (the sub-owner list, any door) owner rank. */
  function CanEditAccessList(h: House, listId: nat, p: Player): (r: bool)
    ensures listId == GuestList ==> (r <==> Rank(AccessLevel(h, p)) >= 2)
    ensures listId != GuestList ==> (r <==> Rank(AccessLevel(h, p)) == 3)
  {
    match AccessLevel(h, p)
    case Owner => true
    case SubOwner => listId == GuestList
    case _ => false
  }

  /** Rights grow with rank: whatever a player may edit, every player of at
      least the same level may edit too; in particular an editor is invited. */
  lemma EditRightsMonotone(h: House, listId: nat, p: Player, q: Player)
    requires CanEditAccessList(h, listId, p)
    requires Rank(AccessLevel(h, q)) >= Rank(AccessLevel(h, p))
    ensures CanEditAccessList(h, listId, q)
    ensures IsInvited(h, p)
  {
  }

  // ---------------------------------------------------------------------
  // Doors of a house
  // ---------------------------------------------------------------------

  /** `addDoor`: appends the door and binds it to this house, unless it is
      already bound. */
  function AddDoor(h: House, d: Door): (r: House)
    ensures r.(doors := h.doors) == h
    ensures |r.doors| == |h.doors| + 1 && r.doors[..|h.doors|] == h.doors
    ensures r.doors[|h.doors|].doorId == d.doorId && r.doors[|h.doors|].description == d.description
    ensures d.house.None? ==> r.doors[|h.doors|].house == Some(h.id) && r.doors[|h.doors|].acl == Empty
    ensures d.house.Some? ==> r.doors[|h.doors|] == d
  {
    h.(doors := h.doors + [SetHouse(d, h.id)])
  }

  /** `getDoorByNumber`: the index of the first door with the given id. */
  function DoorIndex(doors: seq<Door>, doorId: nat): (r: Option<nat>)
    ensures r.None? <==> forall i :: 0 <= i < |doors| ==> doors[i].doorId != doorId
    ensures r.Some? ==> r.value < |doors| && doors[r.value].doorId == doorId
    ensures r.Some? ==> forall i :: 0 <= i < r.value ==> doors[i].doorId != doorId
    decreases |doors|
  {
    if |doors| == 0 then None
    else if doors[0].doorId == doorId then Some(0)
    else
      var r := DoorIndex(doors[1..], doorId);
      assert forall i :: 1 <= i < |doors| ==> doors[i] == doors[1..][i - 1];
      if r.None? then None else Some(r.value + 1)
  }

  /** Appending a door leaves the lookup of every id an earlier door has
      unchanged, and makes the new door's id found. */
  lemma {:induction false} AddDoorLookup(doors: seq<Door>, d: Door, doorId: nat)
    ensures DoorIndex(doors, doorId).Some? ==> DoorIndex(doors + [d], doorId) == DoorIndex(doors, doorId)
    ensures DoorIndex(doors + [d], d.doorId).Some?
  {
    var all := doors + [d];
    assert all[|doors|] == d;
    if DoorIndex(doors, doorId).Some? {
      var k := DoorIndex(doors, doorId).value;
      assert all[k] == doors[k];
      assert forall i :: 0 <= i < k ==> all[i] == doors[i];
    }
  }

  // ---------------------------------------------------------------------
  // Change of owner
  // ---------------------------------------------------------------------

  /** The text every door shows after a change of owner. */
  function Description(houseName: string, ownerName: Option<string>): string {
    "It belongs to house '" + houseName + "'. \n" + ownerName.GetOr("Nobody") + " owns this house.\n"
  }

  function ResetDoorLists(doors: seq<Door>, dir: Directory): (r: seq<Door>)
    ensures |r| == |doors|
    ensures forall i :: 0 <= i < |doors| ==> r[i] == DoorSetAccessList(doors[i], dir, "")
  {
    seq(|doors|, i requires 0 <= i < |doors| => DoorSetAccessList(doors[i], dir, ""))
  }

  function Describe(doors: seq<Door>, text: string): (r: seq<Door>)
    ensures |r| == |doors|
    ensures forall i :: 0 <= i < |doors| ==> r[i] == doors[i].(description := text)
  {
    seq(|doors|, i requires 0 <= i < |doors| => doors[i].(description := text))
  }

  /** The owner a guid names: the guid itself if it is not 0 and resolves to
      a name, otherwise nobody (0). */
  function OwnerFor(dir: Directory, guid: nat): nat {
    if guid != 0 && guid in dir.nameByGuid then guid else 0
  }

  /** The name the door description shows for a guid: the owner's name, or
      none when the guid names nobody. */
  function OwnerName(dir: Directory, guid: nat): Option<string> {
    if OwnerFor(dir, guid) != 0 then Some(dir.nameByGuid[guid]) else None
  }

  /** `setHouseOwner`. A different guid first wipes the previous owner's
      lists, door lists and paid date, then installs the new owner if the guid
      resolves, and writes the same description on every door. */
  function SetHouseOwner(h: House, dir: Directory, guid: nat): (r: House)
    ensures h.owner == guid ==> r == h
    ensures h.owner != guid ==> r.owner == OwnerFor(dir, guid)
    ensures h.owner != guid && h.owner != 0 ==>
              r.guests == Empty && r.subOwners == Empty && r.paidUntil == 0
    ensures h.owner == 0 ==> r.guests == h.guests && r.subOwners == h.subOwners && r.paidUntil == h.paidUntil
    ensures |r.doors| == |h.doors|
    ensures forall i :: 0 <= i < |h.doors| ==>
              r.doors[i].doorId == h.doors[i].doorId && r.doors[i].house == h.doors[i].house
    ensures h.owner != guid ==> forall i :: 0 <= i < |h.doors| ==>
              r.doors[i].description == Description(h.name, OwnerName(dir, guid))
    ensures h.owner == 0 ==> forall i :: 0 <= i < |h.doors| ==> r.doors[i].acl == h.doors[i].acl
    ensures forall i :: 0 <= i < |h.doors| && h.doors[i].house.None? ==> r.doors[i].acl == h.doors[i].acl
    ensures r.(owner := h.owner, paidUntil := h.paidUntil, guests := h.guests,
               subOwners := h.subOwners, doors := h.doors) == h
  {
    if h.owner == guid then h
    else
      var wiped :=
        if h.owner != 0 then
          h.(guests := ParseList(dir, ""), subOwners := ParseList(dir, ""),
             doors := ResetDoorLists(h.doors, dir), owner := 0, paidUntil := 0)
        else h;
      wiped.(owner := OwnerFor(dir, guid), doors := Describe(wiped.doors, Description(h.name, OwnerName(dir, guid))))
  }

  /** A previous owner's door lists are wiped with the other lists: every
      bound door ends with an empty list. */
  lemma OwnerChangeWipesDoors(h: House, dir: Directory, guid: nat)
    requires h.owner != guid && h.owner != 0
    ensures forall i :: 0 <= i < |h.doors| && h.doors[i].house.Some? ==>
              SetHouseOwner(h, dir, guid).doors[i].acl == Empty
  {
  }

  /** Handing a house from one owner `x` to anyone else leaves no trace of
      `x`'s invitations: both lists and every bound door list are empty, the
      paid date is 0, and only administrators and the new owner hold any
      level in the house. */
  lemma TransferClearsInvitations(h: House, dir: Directory, x: nat, y: nat, p: Player)
    requires x != 0 && x in dir.nameByGuid && h.owner != x && y != x
    ensures var h2 := SetHouseOwner(SetHouseOwner(h, dir, x), dir, y);
            && h2.owner == OwnerFor(dir, y)
            && h2.guests == Empty && h2.subOwners == Empty && h2.paidUntil == 0
            && (forall i :: 0 <= i < |h2.doors| && h2.doors[i].house.Some? ==> h2.doors[i].acl == Empty)
            && (IsInvited(h2, p) <==> p.access > 2 || p.guid == h2.owner)
  {
    var h1 := SetHouseOwner(h, dir, x);
    OwnerChangeWipesDoors(h1, dir, y);
    EmptyAdmitsNobody(p);
  }

  /** Setting the same owner twice is setting it once, whether or not the
      guid resolves. */
  lemma SetHouseOwnerIdempotent(h: House, dir: Directory, guid: nat)
    ensures SetHouseOwner(SetHouseOwner(h, dir, guid), dir, guid) == SetHouseOwner(h, dir, guid)
  {
    var h1 := SetHouseOwner(h, dir, guid);
    if h.owner != guid && h1.owner != guid {
      assert h1.owner == 0;
      var d := Describe(h1.doors, Description(h.name, None));
      assert d == h1.doors;
    }
  }

  // ---------------------------------------------------------------------
  // Editing lists and removing players
  // ---------------------------------------------------------------------

  function CreaturesAt(game: Game, pos: Position): seq<Creature> {
    if pos in game.creaturesOn then game.creaturesOn[pos] else []
  }

  /** The players among `cs` that `h` does not invite, in order. */
  function Uninvited(h: House, cs: seq<Creature>): (r: seq<Player>)
    ensures forall p :: p in r <==> Human(p) in cs && !IsInvited(h, p)
    decreases |cs|
  {
    if |cs| == 0 then []
    else
      var rest := Uninvited(h, cs[1..]);
      assert forall c :: c in cs <==> c == cs[0] || c in cs[1..];
      if cs[0].Human? && !IsInvited(h, cs[0].player) then [cs[0].player] + rest else rest
  }

  /** The players standing on the tiles `ts` whom `h` does not invite, tile
      by tile. */
  function Sweep(h: House, game: Game, ts: seq<Position>): (r: seq<Player>)
    ensures forall p :: p in r <==>
              (exists i :: 0 <= i < |ts| && Human(p) in CreaturesAt(game, ts[i])) && !IsInvited(h, p)
    decreases |ts|
  {
    if |ts| == 0 then []
    else
      var here := Uninvited(h, CreaturesAt(game, ts[0]));
      var rest := Sweep(h, game, ts[1..]);
      assert forall i :: 1 <= i < |ts| ==> ts[i] == ts[1..][i - 1];
      assert forall p :: (exists i :: 0 <= i < |ts[1..]| && Human(p) in CreaturesAt(game, ts[1..][i])) ==>
                         (exists i :: 0 <= i < |ts| && Human(p) in CreaturesAt(game, ts[i])) by {
        forall p | exists i :: 0 <= i < |ts[1..]| && Human(p) in CreaturesAt(game, ts[1..][i])
          ensures exists i :: 0 <= i < |ts| && Human(p) in CreaturesAt(game, ts[i])
        {
          var i :| 0 <= i < |ts[1..]| && Human(p) in CreaturesAt(game, ts[1..][i]);
          assert Human(p) in CreaturesAt(game, ts[i + 1]);
        }
      }
      here + rest
  }

  /** `setAccessList`: the guest and sub-owner ids re-parse that list and
      then return the players to teleport to the entry; a door id re-parses
      the first door with that id and teleports no one; an unknown id changes
      nothing. */
  function SetAccessList(h: House, dir: Directory, game: Game, listId: nat, text: string): (r: (House, seq<Player>))
    ensures listId == GuestList ==> r.0 == h.(guests := ParseList(dir, text))
    ensures listId == SubOwnerList ==> r.0 == h.(subOwners := ParseList(dir, text))
    ensures listId == GuestList || listId == SubOwnerList ==>
              forall p :: p in r.1 ==> !IsInvited(r.0, p) && p.access <= 2 && p.guid != h.owner
    ensures listId != GuestList && listId != SubOwnerList ==>
              && r.1 == []
              && r.0.(doors := h.doors) == h
              && |r.0.doors| == |h.doors|
              && (DoorIndex(h.doors, listId).None? ==> r.0 == h)
  {
    if listId == GuestList then
      var h2 := h.(guests := ParseList(dir, text));
      (h2, Sweep(h2, game, h2.tiles))
    else if listId == SubOwnerList then
      var h2 := h.(subOwners := ParseList(dir, text));
      (h2, Sweep(h2, game, h2.tiles))
    else
      match DoorIndex(h.doors, listId)
      case Some(i) => (h.(doors := h.doors[i := DoorSetAccessList(h.doors[i], dir, text)]), [])
      case None => (h, [])
  }

  /** After the guest or sub-owner list is edited, the players teleported
      are exactly those standing on a tile of the house whom the edited house
      no longer invites; the owner and administrators are never among them. */
  lemma EditSweepsExactlyUninvited(h: House, dir: Directory, game: Game, listId: nat, text: string, p: Player)
    requires listId == GuestList || listId == SubOwnerList
    ensures var (h2, kicked) := SetAccessList(h, dir, game, listId, text);
            && (listId == GuestList ==> h2 == h.(guests := ParseList(dir, text)))
            && (listId == SubOwnerList ==> h2 == h.(subOwners := ParseList(dir, text)))
            && (p in kicked <==>
                  (exists i :: 0 <= i < |h.tiles| && Human(p) in CreaturesAt(game, h.tiles[i]))
                  && !IsInvited(h2, p))
            && (p in kicked ==> p.access <= 2 && p.guid != h.owner)
  {
  }

  /** A door id edits only the first door with that id, and no one is
      teleported; an id no door has leaves the house as it was. */
  lemma DoorEditIsLocal(h: House, dir: Directory, game: Game, listId: nat, text: string)
    requires listId != GuestList && listId != SubOwnerList
    ensures var (h2, kicked) := SetAccessList(h, dir, game, listId, text);
            && kicked == []
            && h2.guests == h.guests && h2.subOwners == h.subOwners && h2.owner == h.owner
            && |h2.doors| == |h.doors|
            && (DoorIndex(h.doors, listId).None? ==> h2 == h)
            && (DoorIndex(h.doors, listId).Some? ==>
                  var i := DoorIndex(h.doors, listId).value;
                  h2 == h.(doors := h.doors[i := DoorSetAccessList(h.doors[i], dir, text)]))
            && (forall j :: 0 <= j < |h.doors| && h.doors[j].doorId != listId ==> h2.doors[j] == h.doors[j])
  {
  }

  /** `getAccessList`: the text of the named list, or None for an unknown
      door id or a door that is not bound. */
  function GetAccessList(h: House, listId: nat): (r: Option<string>)
    ensures listId == GuestList ==> r == Some(h.guests.text)
    ensures listId == SubOwnerList ==> r == Some(h.subOwners.text)
    ensures listId != GuestList && listId != SubOwnerList ==>
              (r.Some? <==> DoorIndex(h.doors, listId).Some? && h.doors[DoorIndex(h.doors, listId).value].house.Some?)
    ensures listId != GuestList && listId != SubOwnerList && r.Some? ==>
              r.value == h.doors[DoorIndex(h.doors, listId).value].acl.text
  {
    if listId == GuestList then Some(GetList(h.guests))
    else if listId == SubOwnerList then Some(GetList(h.subOwners))
    else
      match DoorIndex(h.doors, listId)
      case Some(i) => DoorGetAccessList(h.doors[i])
      case None => None
  }

  /** Every list reads back as last written: the guest and sub-owner lists
      always, a door's list whenever the id names a bound door; an id no
      door has reads as None before and after. */
  lemma ListRoundTrip(h: House, dir: Directory, game: Game, listId: nat, text: string)
    ensures var h2 := SetAccessList(h, dir, game, listId, text).0;
            && (listId == GuestList || listId == SubOwnerList ==> GetAccessList(h2, listId) == Some(text))
            && ((listId != GuestList && listId != SubOwnerList && DoorIndex(h.doors, listId).Some? &&
                 h.doors[DoorIndex(h.doors, listId).value].house.Some?) ==> GetAccessList(h2, listId) == Some(text))
            && ((listId != GuestList && listId != SubOwnerList && DoorIndex(h.doors, listId).None?) ==>
                GetAccessList(h2, listId) == None)
  {
    if listId != GuestList && listId != SubOwnerList {
      var h2 := SetAccessList(h, dir, game, listId, text).0;
      match DoorIndex(h.doors, listId)
      case Some(i) =>
        assert forall j :: 0 <= j < |h.doors| ==> h2.doors[j].doorId == h.doors[j].doorId;
        assert DoorIndex(h2.doors, listId) == Some(i) by {
          DoorIndexSameIds(h.doors, h2.doors, listId);
        }
      case None =>
    }
  }

  /** The lookup only depends on the door ids. */
  lemma {:induction false} DoorIndexSameIds(a: seq<Door>, b: seq<Door>, doorId: nat)
    requires |a| == |b|
    requires forall j :: 0 <= j < |a| ==> a[j].doorId == b[j].doorId
    ensures DoorIndex(a, doorId) == DoorIndex(b, doorId)
  {
  }

  /** `kickPlayer`: `kicker` asks to remove the player called `name`. The
      answer is the first component; the second says whether the teleport
      to the entry succeeded (and the energy effect was shown). */
  function KickPlayer(h: House, game: Game, kicker: Player, name: string): (r: (bool, bool))
    ensures r.1 ==> r.0
  {
    if name in game.online then
      var target := game.online[name];
      if target.guid in game.standingIn && game.standingIn[target.guid] == h.id &&
         Rank(AccessLevel(h, kicker)) >= Rank(AccessLevel(h, target))
      then (true, target.guid in game.teleportOk)
      else (false, false)
    else (false, false)
  }

  /** The answer of a kick does not depend on whether the teleport works:
      it is true exactly when the named player is online, stands in this
      house, and ranks no higher than the kicker. */
  lemma KickAnswer(h: House, game: Game, kicker: Player, name: string, ok: set<nat>)
    ensures KickPlayer(h, game, kicker, name).0 == KickPlayer(h, game.(teleportOk := ok), kicker, name).0
    ensures KickPlayer(h, game, kicker, name).0 <==>
              && name in game.online
              && game.online[name].guid in game.standingIn
              && game.standingIn[game.online[name].guid] == h.id
              && Rank(AccessLevel(h, kicker)) >= Rank(AccessLevel(h, game.online[name]))
  {
  }

  /** An owner may remove anyone standing in the house, and a player who is
      not invited may remove only players who are not invited either. */
  lemma KickByRank(h: House, game: Game, kicker: Player, name: string)
    requires name in game.online
    requires game.online[name].guid in game.standingIn && game.standingIn[game.online[name].guid] == h.id
    ensures AccessLevel(h, kicker) == Owner ==> KickPlayer(h, game, kicker, name).0
    ensures !IsInvited(h, kicker) && IsInvited(h, game.online[name]) ==> !KickPlayer(h, game, kicker, name).0
  {
  }
  // ---------------------------------------------------------------------
  // Rent
  // ---------------------------------------------------------------------

  /** The time `payHouses` compares paid dates with; the server fixes it at
      0. */
  const CurrentTime: nat := 0

  /** A house the rent run would charge: owned, rented, and paid up to a
      time before `now`. */
  predicate Due(h: House, now: nat) {
    h.owner != 0 && h.paidUntil < now && h.rent != 0
  }

  /** What the rent run needs from the rest of the server: the towns that
      exist, the owner names, and the names whose player record loads. */
  datatype Registry = Registry(towns: set<nat>, dir: Directory, loadable: set<string>)

  /** The rent run on one house. A due house of an existing town whose owner
      resolves to a name that loads has that owner's record loaded and saved
      again, which the second component names. The charge itself is never
      written, so the house comes back as it was on every path. */
  function PayHouse(h: House, now: nat, reg: Registry): (r: (House, Option<nat>))
    ensures r.0 == h
    ensures r.1.Some? <==>
              && Due(h, now) && h.townId in reg.towns
              && h.owner in reg.dir.nameByGuid && reg.dir.nameByGuid[h.owner] in reg.loadable
    ensures r.1.Some? ==> r.1.value == h.owner
  {
    if !Due(h, now) then (h, None)
    else if h.townId !in reg.towns then (h, None)
    else if h.owner !in reg.dir.nameByGuid then (h, None)
    else if reg.dir.nameByGuid[h.owner] !in reg.loadable then (h, None)
    else (h, Some(h.owner))
  }

  /** `payHouses` over the houses in map order: the answer is always true,
      every house is kept as it was, and only the owners of due houses are
      loaded and saved, one save per house at most. */
  function PayHouses(houses: seq<House>, now: nat, reg: Registry): (r: (bool, seq<House>, seq<nat>))
    ensures r.0
    ensures r.1 == houses
    ensures |r.2| <= |houses|
    ensures (forall i :: 0 <= i < |houses| ==> !Due(houses[i], now)) ==> r.2 == []
    decreases |houses|
  {
    if |houses| == 0 then (true, [], [])
    else
      var step := PayHouse(houses[0], now, reg);
      var rest := PayHouses(houses[1..], now, reg);
      var saved := if step.1.Some? then [step.1.value] else [];
      (true, [step.0] + rest.1, saved + rest.2)
  }

  /** The owners the rent run saves are exactly those whose house takes the
      save path. */
  lemma {:induction false} PayHousesSaves(houses: seq<House>, now: nat, reg: Registry, g: nat)
    ensures g in PayHouses(houses, now, reg).2 <==>
            exists i :: 0 <= i < |houses| && PayHouse(houses[i], now, reg).1 == Some(g)
    decreases |houses|
  {
    if |houses| > 0 {
      PayHousesSaves(houses[1..], now, reg, g);
      if exists i :: 0 <= i < |houses| && PayHouse(houses[i], now, reg).1 == Some(g) {
        var i :| 0 <= i < |houses| && PayHouse(houses[i], now, reg).1 == Some(g);
        if i > 0 {
          assert houses[1..][i - 1] == houses[i];
        }
      }
      if exists i :: 0 <= i < |houses[1..]| && PayHouse(houses[1..][i], now, reg).1 == Some(g) {
        var i :| 0 <= i < |houses[1..]| && PayHouse(houses[1..][i], now, reg).1 == Some(g);
        assert houses[i + 1] == houses[1..][i];
      }
    }
  }

  /** At the time the server uses no house is due, so the rent run loads and
      saves nobody; a house one tick past its paid date is due iff it is
      owned and rented. */
  lemma RentRunAtCurrentTime(houses: seq<House>, reg: Registry)
    ensures PayHouses(houses, CurrentTime, reg) == (true, houses, [])
    ensures forall h: House :: Due(h, h.paidUntil + 1) <==> h.owner != 0 && h.rent != 0
  {
  }
}
