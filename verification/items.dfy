/** The item type table and the `.dat` record decoder (items.cpp).

    `tibia.dat` holds, after a 12-byte header, one record per item type in
    id order starting at 100. A record is a run of option bytes ended by
    `0xFF`; each option sets flags of the item type and may be followed by a
    fixed number of payload bytes. After the options comes a sprite header
    (width, height, an extra byte for large sprites, blend frames, x and y
    divisions, animation count) and the sprite data, which is skipped.

    The file is a byte sequence and the file position an integer. Reading
    past the end yields -1 and leaves the position where it is, as `fgetc`
    does; a seek may move past the end but never before the start. */
module Items {
  import opened Wrappers
  import opened Bytes

  datatype RW = CanBeRead | CanBeWritten

  datatype Slot = SlotRight | SlotLeft | SlotAmmo

  /** The boolean properties of an item type that start out false. */
  datatype Flag =
    | Container | MagicField | FluidContainer | Key | Stackable | Multitype | Useable
    | NotMoveable | AlwaysOnTop | GroundTile | Splash | Blocking | Pickupable
    | BlockingProjectile | CanWalkThrough | NoFloorChange
    | FloorChangeNorth | FloorChangeSouth | FloorChangeEast | FloorChangeWest
    | Door | DoorWithLock | Teleport

  /** The properties the `.dat` decoder never sets (they come from the XML
      item list). */
  datatype Stats = Stats(
    readonlyId: int,
    runeMagLevel: int,
    magicFieldType: int,
    maxItems: int,
    slots: set<Slot>,
    attack: int,
    defence: int,
    armor: int,
    decayTo: int,
    decayTime: int,
    canDecay: bool,
    damage: int)

  /** An item type. `flags` holds the boolean properties that are set;
      `blockPickupable` is the one boolean that starts out true. */
  datatype ItemType = ItemType(
    id: int,
    flags: set<Flag>,
    rwInfo: set<RW>,
    blockPickupable: bool,
    speed: int,
    stats: Stats)

  const DefaultStats := Stats(
    readonlyId := 0, runeMagLevel := -1, magicFieldType := -1, maxItems := 8,
    slots := {SlotRight, SlotLeft, SlotAmmo}, attack := 0, defence := 0, armor := 0,
    decayTo := 0, decayTime := 60, canDecay := true, damage := 0)

  /** The `ItemType` constructor. */
  function DefaultType(): (t: ItemType)
    ensures t.id == 100 && t.stats.maxItems == 8 && t.stats.decayTime == 60 && t.stats.canDecay
    ensures t.blockPickupable && t.flags == {} && t.rwInfo == {} && t.speed == 0
    ensures t.stats.slots == {SlotRight, SlotLeft, SlotAmmo}
    ensures t.stats.runeMagLevel == -1 && t.stats.magicFieldType == -1
  {
    ItemType(id := 100, flags := {}, rwInfo := {}, blockPickupable := true, speed := 0, stats := DefaultStats)
  }

  // ---------------------------------------------------------------------
  // The file
  // ---------------------------------------------------------------------

  /** `fgetc`: the byte at the position and the next position, or -1 and the
      same position at the end of the file. */
  function Getc(data: seq<byte>, pos: nat): (r: (int, nat))
    ensures pos < |data| ==> r == (data[pos] as int, pos + 1)
    ensures pos >= |data| ==> r == (-1, pos)
  {
    if pos < |data| then (data[pos] as int, pos + 1) else (-1, pos)
  }

  /** Reads and discards `n` bytes. */
  function Skip(data: seq<byte>, pos: nat, n: nat): (p: nat)
    ensures p == if pos < |data| then Min(pos + n, |data|) else pos
    decreases n
  {
    if n == 0 then pos else Skip(data, Getc(data, pos).1, n - 1)
  }

  function Min(a: int, b: int): int {
    if a < b then a else b
  }

  /** `fseek(SEEK_CUR)`: a target before the start of the file fails and
      leaves the position unchanged. */
  function SeekBy(pos: nat, offset: int): (p: nat)
    ensures pos + offset >= 0 ==> p == pos + offset
    ensures pos + offset < 0 ==> p == pos
  {
    if pos + offset < 0 then pos else pos + offset
  }

  /** The value a product computed in a 32-bit `int` ends with. */
  function Wrap32(x: int): (r: int)
    ensures -0x8000_0000 <= r < 0x8000_0000
    ensures (r - x) % 0x1_0000_0000 == 0
  {
    (x + 0x8000_0000) % 0x1_0000_0000 - 0x8000_0000
  }

  // ---------------------------------------------------------------------
  // Options
  // ---------------------------------------------------------------------

  /** The flags an option without a sub-byte sets. */
  function OptionFlags(opt: byte): set<Flag> {
    if opt == 0x01 then {AlwaysOnTop}
    else if opt == 0x02 then {CanWalkThrough, AlwaysOnTop}
    else if opt == 0x03 then {Container}
    else if opt == 0x04 then {Stackable}
    else if opt == 0x05 then {Useable}
    else if opt == 0x09 then {FluidContainer}
    else if opt == 0x0A then {Multitype}
    else if opt == 0x0B then {Blocking}
    else if opt == 0x0C then {NotMoveable}
    else if opt == 0x0D then {BlockingProjectile}
    else if opt == 0x0F then {Pickupable}
    else if opt == 0x12 then {NoFloorChange}
    else {}
  }

  /** The read/write bits an option without a sub-byte sets. */
  function OptionRW(opt: byte): set<RW> {
    if opt == 0x07 then {CanBeWritten, CanBeRead}
    else if opt == 0x08 then {CanBeRead}
    else {}
  }

  /** The payload bytes each option carries. */
  function Payload(opt: byte): nat {
    if opt == 0x10 then 4
    else if opt in {0x00, 0x07, 0x08, 0x13, 0x16, 0x1D} then 2
    else 0
  }

  /** One option byte and its payload. `0x00` (ground) and `0x1D` (action)
      read a byte that decides their effect; every other option sets fixed
      flags, and `0x13` clears `blockPickupable`. */
  function ApplyOption(t: ItemType, opt: byte, data: seq<byte>, pos: nat): (r: (ItemType, nat))
  {
    if opt == 0x00 then
      var (speed, p1) := Getc(data, pos);
      var blocking := if speed == 0 then {Blocking} else {};
      (t.(flags := t.flags + {GroundTile} + blocking, speed := speed), Getc(data, p1).1)
    else if opt == 0x1D then
      var (sub, p1) := Getc(data, pos);
      var t1 :=
        if sub == 0x50 then t.(flags := t.flags + {Door})
        else if sub == 0x51 then t.(flags := t.flags + {DoorWithLock})
        else if sub == 0x58 then t.(rwInfo := t.rwInfo + {CanBeRead})
        else t;
      (t1, Getc(data, p1).1)
    else
      (t.(flags := t.flags + OptionFlags(opt), rwInfo := t.rwInfo + OptionRW(opt),
          blockPickupable := t.blockPickupable && opt != 0x13),
       Skip(data, pos, Payload(opt)))
  }

  /** Every option consumes exactly its payload, or what is left of the
      file if that is shorter; unknown options consume nothing. */
  lemma OptionConsumesPayload(t: ItemType, opt: byte, data: seq<byte>, pos: nat)
    ensures ApplyOption(t, opt, data, pos).1 == if pos < |data| then Min(pos + Payload(opt), |data|) else pos
  {
  }

  /** Flags and read/write bits only ever grow, `blockPickupable` only
      turns off, and nothing but these and the speed changes. */
  predicate Grows(a: ItemType, b: ItemType) {
    && b.id == a.id && b.stats == a.stats
    && a.flags <= b.flags && a.rwInfo <= b.rwInfo
    && (b.blockPickupable ==> a.blockPickupable)
  }

  /** What one option does: no option but `0x13` touches `blockPickupable`,
      and only `0x00` touches the speed. */
  lemma OptionEffect(t: ItemType, opt: byte, data: seq<byte>, pos: nat)
    ensures var t1 := ApplyOption(t, opt, data, pos).0;
            && Grows(t, t1)
            && (t1.blockPickupable != t.blockPickupable ==> opt == 0x13)
            && (t1.speed != t.speed ==> opt == 0x00)
  {
  }

  /** The documented effects of individual options. */
  lemma OptionTable(t: ItemType, data: seq<byte>, pos: nat)
    ensures ApplyOption(t, 0x02, data, pos).0.flags == t.flags + {CanWalkThrough, AlwaysOnTop}
    ensures ApplyOption(t, 0x03, data, pos).0.flags == t.flags + {Container}
    ensures ApplyOption(t, 0x04, data, pos).0.flags == t.flags + {Stackable}
    ensures ApplyOption(t, 0x0B, data, pos).0.flags == t.flags + {Blocking}
    ensures ApplyOption(t, 0x0D, data, pos).0.flags == t.flags + {BlockingProjectile}
    ensures ApplyOption(t, 0x0F, data, pos).0.flags == t.flags + {Pickupable}
  {
  }

  /** The options that touch `blockPickupable` and the read/write bits. */
  lemma OptionTableReadWrite(t: ItemType, data: seq<byte>, pos: nat)
    ensures !ApplyOption(t, 0x13, data, pos).0.blockPickupable
    ensures ApplyOption(t, 0x13, data, pos).0.flags == t.flags
    ensures ApplyOption(t, 0x13, data, pos).0.rwInfo == t.rwInfo
    ensures ApplyOption(t, 0x07, data, pos).0.rwInfo == t.rwInfo + {CanBeRead, CanBeWritten}
    ensures ApplyOption(t, 0x08, data, pos).0.rwInfo == t.rwInfo + {CanBeRead}
  {
  }

  /** Option `0x00` reads the speed from the next byte, makes the item a
      ground tile, blocks it when the speed is 0, and skips one more byte;
      option `0x1D` reads a sub-byte naming doors, locked doors or readable
      items, then skips one more byte. */
  lemma OptionsWithSubByte(t: ItemType, data: seq<byte>, pos: nat)
    requires pos + 2 <= |data|
    ensures var (t1, p) := ApplyOption(t, 0x00, data, pos);
            && GroundTile in t1.flags && t1.speed == data[pos] as int
            && (Blocking in t1.flags <==> Blocking in t.flags || data[pos] == 0)
            && p == pos + 2
    ensures var (t1, p) := ApplyOption(t, 0x1D, data, pos);
            && p == pos + 2
            && (data[pos] == 0x50 ==> t1 == t.(flags := t.flags + {Door}))
            && (data[pos] == 0x51 ==> t1 == t.(flags := t.flags + {DoorWithLock}))
            && (data[pos] == 0x58 ==> t1 == t.(rwInfo := t.rwInfo + {CanBeRead}))
            && (data[pos] !in {0x50, 0x51, 0x58} ==> t1 == t)
  {
  }

  /** The option loop: options up to a `0xFF` or the end of the file. The
      result ends just after the `0xFF`, or at the end of the file. */
  function ReadOptions(t: ItemType, data: seq<byte>, pos: nat): (r: (ItemType, nat))
    ensures r.1 >= pos
    ensures r.1 >= |data| || (pos < r.1 && data[r.1 - 1] == 0xFF)
    ensures Grows(t, r.0)
    decreases if pos <= |data| then |data| - pos else 0
  {
    var (opt, p1) := Getc(data, pos);
    if opt < 0 || opt == 0xFF then (t, p1)
    else
      var (t1, p2) := ApplyOption(t, opt, data, p1);
      OptionConsumesPayload(t, opt, data, p1);
      OptionEffect(t, opt, data, p1);
      ReadOptions(t1, data, p2)
  }

  // ---------------------------------------------------------------------
  // Sprite header and records
  // ---------------------------------------------------------------------

  /** Reads the sprite header and seeks over the sprite data. The seek
      distance is computed in a 32-bit `int`; bytes past the end read as -1. */
  function SkipSprites(data: seq<byte>, pos: nat): nat {
    var (width, p1) := Getc(data, pos);
    var (height, p2) := Getc(data, p1);
    var p3 := if width > 1 || height > 1 then Getc(data, p2).1 else p2;
    var (blend, p4) := Getc(data, p3);
    var (xdiv, p5) := Getc(data, p4);
    var (ydiv, p6) := Getc(data, p5);
    var (anim, p7) := Getc(data, p6);
    SeekBy(p7, Wrap32(SpriteBytes(width, height, blend, xdiv, ydiv, anim)))
  }

  /** The length of the sprite data: two bytes per sprite. */
  function SpriteBytes(width: int, height: int, blend: int, xdiv: int, ydiv: int, anim: int): int {
    width * height * blend * xdiv * ydiv * anim * 2
  }

  /** With the whole header present, the sprite data of a record is
      `2 * width * height * blend * xdiv * ydiv * anim` bytes after a header
      of 6 bytes, or 7 when the sprite is wider or higher than one tile. */
  lemma SpriteHeaderLength(data: seq<byte>, pos: nat)
    requires pos + 7 <= |data|
    ensures var w := data[pos] as int;
            var h := data[pos + 1] as int;
            var header := if w > 1 || h > 1 then 7 else 6;
            var q := pos + header;
            SkipSprites(data, pos) ==
              SeekBy(q, Wrap32(SpriteBytes(w, h, data[q - 4] as int, data[q - 3] as int, data[q - 2] as int, data[q - 1] as int)))
  {
  }

  /** One record: the options, then the sprites, under the given id. */
  function ReadRecord(data: seq<byte>, pos: nat, id: int): (r: (ItemType, nat))
    ensures r.0.id == id
  {
    var (t, p) := ReadOptions(DefaultType().(id := id), data, pos);
    (t, SkipSprites(data, p))
  }

  // ---------------------------------------------------------------------
  // The record loop
  // ---------------------------------------------------------------------

  /** Where the records start. */
  const HeaderSize := 0x0C

  /** Where the item ids start. */
  const FirstId := 100

  /** The record loop as written: it reads records while the position is
      before the end of the file. A record may leave the position where it
      started or before it (the sprite seek is taken from bytes read past the
      end), so the loop is given `fuel` steps and None stands for "still
      looping". */
  function RecordsAsWritten(data: seq<byte>, pos: nat, id: int, fuel: nat): Option<seq<ItemType>>
    decreases fuel
  {
    if pos >= |data| then Some([])
    else if fuel == 0 then None
    else
      var (t, next) := ReadRecord(data, pos, id);
      match RecordsAsWritten(data, next, id + 1, fuel - 1)
      case Some(rest) => Some([t] + rest)
      case None => None
  }

  /** A file of 12 header bytes followed by `FF 01` never finishes loading:
      the record reads `FF` (no options) and width 1, every later header
      byte reads as -1, the sprite length is `1 * -1 * -1 * -1 * -1 * -1 * 2
      = -2`, and the seek puts the position back at 12. */
  lemma TruncatedRecordLoopsForever(header: seq<byte>, id: int, fuel: nat)
    requires |header| == HeaderSize
    ensures RecordsAsWritten(header + [0xFF, 0x01], HeaderSize, id, fuel) == None
    decreases fuel
  {
    var data := header + [0xFF, 0x01];
    assert data[12] == 0xFF && data[13] == 0x01;
    assert ReadOptions(DefaultType().(id := id), data, 12).1 == 13;
    assert SkipSprites(data, 13) == 12;
    if fuel > 0 {
      TruncatedRecordLoopsForever(header, id + 1, fuel - 1);
    }
  }

  /** The record loop, ending also after a record that does not move the
      position forward; that record is still stored. Every file is read to
      an end. */
  function Records(data: seq<byte>, pos: nat, id: int): (rs: seq<ItemType>)
    ensures pos < |data| ==> |rs| > 0
    ensures forall i :: 0 <= i < |rs| ==> rs[i].id == id + i
    decreases if pos <= |data| then |data| - pos else 0
  {
    if pos >= |data| then []
    else
      var (t, next) := ReadRecord(data, pos, id);
      if next <= pos then [t]
      else
        var rest := Records(data, next, id + 1);
        assert forall i :: 1 <= i < |rest| + 1 ==> ([t] + rest)[i] == rest[i - 1];
        [t] + rest
  }

  /** Every record from `pos` on moves the position forward. */
  predicate Advancing(data: seq<byte>, pos: nat)
    decreases if pos <= |data| then |data| - pos else 0
  {
    pos >= |data| || (ReadRecord(data, pos, 0).1 > pos && Advancing(data, ReadRecord(data, pos, 0).1))
  }

  /** Where a record ends does not depend on the id it is stored under. */
  lemma RecordEndIgnoresId(data: seq<byte>, pos: nat, a: int, b: int)
    ensures ReadRecord(data, pos, a).1 == ReadRecord(data, pos, b).1
  {
    ReadOptionsEndIgnoresType(DefaultType().(id := a), DefaultType().(id := b), data, pos);
  }

  lemma {:induction false} ReadOptionsEndIgnoresType(s: ItemType, t: ItemType, data: seq<byte>, pos: nat)
    ensures ReadOptions(s, data, pos).1 == ReadOptions(t, data, pos).1
    decreases if pos <= |data| then |data| - pos else 0
  {
    var (opt, p1) := Getc(data, pos);
    if opt >= 0 && opt != 0xFF {
      OptionConsumesPayload(s, opt, data, p1);
      OptionConsumesPayload(t, opt, data, p1);
      ReadOptionsEndIgnoresType(ApplyOption(s, opt, data, p1).0, ApplyOption(t, opt, data, p1).0, data,
                                ApplyOption(s, opt, data, p1).1);
    }
  }

  /** On a file whose records all move forward, the corrected loop and the
      loop as written read the same records, given as many steps as there
      are bytes left. */
  lemma {:induction false} RecordsAgreeWhenAdvancing(data: seq<byte>, pos: nat, id: int, fuel: nat)
    requires Advancing(data, pos)
    requires pos + fuel >= |data|
    ensures RecordsAsWritten(data, pos, id, fuel) == Some(Records(data, pos, id))
    decreases fuel
  {
    if pos < |data| {
      var next := ReadRecord(data, pos, id).1;
      RecordEndIgnoresId(data, pos, id, 0);
      RecordsAgreeWhenAdvancing(data, next, id + 1, fuel - 1);
    }
  }

  /** The truncated file of `TruncatedRecordLoopsForever` loads, with the
      corrected loop, as one record with no options. */
  lemma TruncatedRecordIsReadOnce(header: seq<byte>)
    requires |header| == HeaderSize
    ensures Records(header + [0xFF, 0x01], HeaderSize, FirstId) == [DefaultType()]
  {
    var data := header + [0xFF, 0x01];
    assert data[12] == 0xFF && data[13] == 0x01;
    assert ReadOptions(DefaultType().(id := FirstId), data, 12) == (DefaultType(), 13);
    assert SkipSprites(data, 13) == 12;
  }

  // ---------------------------------------------------------------------
  // The table
  // ---------------------------------------------------------------------

  /** The item table: a missing id and a null entry are both possible. */
  type ItemTable = map<int, Option<ItemType>>

  /** The entries for the 40 liquid ids, each a default type under its own
      id. */
  function Liquids(): (m: ItemTable)
    ensures forall i :: 0 <= i < 40 <==> i in m
    ensures forall i :: 0 <= i < 40 ==> m[i] == Some(DefaultType().(id := i))
  {
    map i | 0 <= i < 40 :: Some(DefaultType().(id := i))
  }

  /** The records stored under consecutive ids from `id` on. */
  function StoreRecords(items: ItemTable, rs: seq<ItemType>, id: int): (r: ItemTable)
    ensures forall k :: k in r <==> k in items || id <= k < id + |rs|
    ensures forall k :: id <= k < id + |rs| ==> r[k] == Some(rs[k - id])
    ensures forall k :: k in items && !(id <= k < id + |rs|) ==> r[k] == items[k]
    decreases |rs|
  {
    if |rs| == 0 then items
    else StoreRecords(items[id := Some(rs[0])], rs[1..], id + 1)
  }

  /** `loadFromDat` with the corrected loop. A file that cannot be opened
      gives -1 and leaves the table alone; otherwise the records get ids
      100, 101, ... in file order, and ids 0 to 39 then hold default types. */
  function LoadFromDat(items: ItemTable, file: Option<seq<byte>>): (r: (int, ItemTable))
    ensures file.None? ==> r == (-1, items)
    ensures file.Some? ==> r.0 == 0
    ensures file.Some? ==> forall i :: 0 <= i < 40 ==> i in r.1 && r.1[i] == Some(DefaultType().(id := i))
    ensures file.Some? ==>
              var rs := Records(file.value, HeaderSize, FirstId);
              forall i :: 0 <= i < |rs| ==> FirstId + i in r.1 && r.1[FirstId + i] == Some(rs[i]) && rs[i].id == FirstId + i
    ensures file.Some? ==>
              var rs := Records(file.value, HeaderSize, FirstId);
              forall k :: k in r.1 <==> k in items || 0 <= k < 40 || FirstId <= k < FirstId + |rs|
    ensures file.Some? ==>
              var rs := Records(file.value, HeaderSize, FirstId);
              forall k :: k in items && !(0 <= k < 40) && !(FirstId <= k < FirstId + |rs|) ==> r.1[k] == items[k]
  {
    match file
    case None => (-1, items)
    case Some(data) =>
      var rs := Records(data, HeaderSize, FirstId);
      (0, StoreRecords(items, rs, FirstId) + Liquids())
  }

  /** `operator[]`: the stored type for a known id with a non-null entry,
      the default type otherwise. */
  function Lookup(items: ItemTable, id: int): (t: ItemType)
    ensures id in items && items[id].Some? ==> t == items[id].value
    ensures !(id in items && items[id].Some?) ==> t == DefaultType()
  {
    if id in items && items[id].Some? then items[id].value else DefaultType()
  }

  /** After loading, a liquid id finds its default type, a record id above
      the liquids finds its record, and an id that is neither a liquid, a
      loaded record nor already known falls back to the default type, which
      carries id 100 — the id of the first record. */
  lemma LookupAfterLoad(items: ItemTable, data: seq<byte>, id: int)
    ensures 0 <= id < 40 ==> Lookup(LoadFromDat(items, Some(data)).1, id) == DefaultType().(id := id)
    ensures var rs := Records(data, HeaderSize, FirstId);
            FirstId <= id < FirstId + |rs| ==> Lookup(LoadFromDat(items, Some(data)).1, id) == rs[id - FirstId]
    ensures var rs := Records(data, HeaderSize, FirstId);
            id !in items && !(0 <= id < 40) && !(FirstId <= id < FirstId + |rs|) ==>
              Lookup(LoadFromDat(items, Some(data)).1, id).id == FirstId
  {
  }
}
