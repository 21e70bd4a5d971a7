# otserv core: houses, access lists, things, the message codec and the item loader

A Dafny model of four parts of the otserv game server:

- **Houses** (`house.cpp`). This covers houses, their doors, and the access lists that decide who is a guest, a sub-owner or may pass a door. The model includes:
  - owner changes, which wipe every list;
  - list editing, which re-parses the list text and sweeps uninvited players off the house tiles;
  - the access-level ranking, and the editing and kicking rights that follow from it;
  - the rent run.
- **Things** (`thing.cpp`). These are items, creatures and tiles, linked to their containers by parent pointers. The model covers use counting, the walk up to the top parent and to the tile, and the removal test.
- **Network messages** (`networkmessage.h`). This is the cursor codec of a fixed-size message buffer:
  - writes of 1, 2 and 4 bytes that are checked against the buffer's reserve;
  - reads that are not checked;
  - reset, length and the encryption flags.
- **Item types** (`items.cpp`). This is the decoder of the `tibia.dat` record file into the item type table, and the table lookup that falls back to a default type.

The model is written as pure functions over immutable datatypes. Pointers become ids into maps, `NULL` becomes `Option`, and `delete this` becomes a destroyed flag. The server's singletons become parameters:
- the player database (`IOPlayer`) becomes a `Directory` of name, guid and guild lookups;
- the game world (`g_game`) becomes a `Game` value holding the online players, the house each player stands in, the creatures on each tile, and whose teleport succeeds.

The file is a byte sequence, and the file position is an integer. Bytes are bounded integers.

Modules:
- `Wrappers`, `Positions` and `Bytes` in `common.dfy`;
- `Glob` in `glob.dfy`: the wildcard rules of an access list, and the regular-expression text the server builds from them;
- `AccessLists` in `access_list.dfy`;
- `Houses` in `house.dfy`;
- `Things` in `thing.dfy`;
- `NetworkMessages` in `network_message.dfy`;
- `Items` in `items.dfy`.

Three behaviours of the code are easy to misread; the model keeps each one as the code has it:
- **Clearing lists by two owner changes.** Setting owner `x` and then owner `y` clears every list only when `x` is a non-zero guid that resolves to a name. Otherwise the owner stays 0, and the second change has nothing to wipe. See `Houses.TransferClearsInvitations`.
- **Players with guid 0.** A player whose guid is 0 holds the owner level in a house that has no owner, because the comparison with owner 0 succeeds. `Houses.AccessLevel` states this as written.
- **The duplicate check of `addExpression`.** It compares the raw rule line with the already escaped and rewritten expression texts. So a repeated wildcard rule is stored twice, and a line equal to an earlier rule's text is refused. `AccessLists.DuplicateCheckComparesWithExpressionText` shows both.

## Model

| member | source | states |
|---|---|---|
| Glob.ReplaceCharAppend | house.cpp:359-360 | Replacing every occurrence of a character distributes over concatenation. |
| Glob.RewrittenEscape | house.cpp:349-360 | Escaping a character and then rewriting `*` to `.*` and `?` to `.?` gives exactly that character's regular-expression token. |
| Glob.RegexTextCons | house.cpp:349-360 | The expression text of a rule line is built character by character. |
| Glob.ParseToken | house.cpp:362-368 | Reading a token of the expression text back yields that character's wildcard atom. |
| Glob.RegexTextDenotesPattern | house.cpp:349-368 | The regular expression built from any rule line reads back as exactly the wildcard pattern of that line. Escaped metacharacters are literals, `*` is any run and `?` is at most one character. |
| Glob.RegexTextNegation | house.cpp:362-368 | The expression text starts with `!` iff the rule line does, and the rest of the text is the expression text of the rest of the line. |
| Glob.LiteralMatchesExactly | house.cpp:381 | A pattern without wildcards matches a name iff the name equals it. |
| Glob.StarMatchesSomeSuffix | house.cpp:381 | A leading `*` matches a name iff the rest of the pattern matches some suffix of it. |
| Glob.StarMatchesEverything | house.cpp:381 | The rule `*` matches every name. |
| Glob.OptMatchesAtMostOne | house.cpp:381 | The rule `?` matches exactly the names of at most one character. |
| Glob.MatchesConcat | house.cpp:381 | Patterns that match two names match their concatenation when concatenated. |
| AccessLists.TrimLeftRemovesLeadingRun | house.cpp:283-285 | Left trimming removes exactly the leading run of the character. The result is a suffix that does not start with it. |
| AccessLists.TrimRightRemovesTrailingRun | house.cpp:287-289 | Right trimming removes exactly the trailing run of the character. |
| AccessLists.IndexOf | house.cpp:299-300 | `find` returns the first position of the character, or the length when the character is absent. |
| AccessLists.LinesRoundTrip | house.cpp:280-282 | The lines `getline` yields, each followed by a newline, give back the list text, plus a final newline when the text lacked one. |
| AccessLists.LinesHaveNoNewline | house.cpp:280-282 | No line yielded holds a newline. |
| AccessLists.LinesStep | house.cpp:280-282 | Splitting takes off the text before the first newline and continues after it. |
| AccessLists.ClassifyLine | house.cpp:293-308 | Each normalized line is classified as follows, each case as an if-and-only-if: <br>- a comment or an over-long line is skipped; <br>- a line with `@` names the guild after its first `@`, even when it also holds `!`, `*` or `?`; <br>- otherwise a line with `!`, `*` or `?` is a rule; <br>- any other line is a player name. |
| AccessLists.AddPlayer | house.cpp:313-325 | The id is recorded iff the name resolves. The answer is true iff the id was new. Nothing else changes. |
| AccessLists.AddGuild | house.cpp:327-337 | A resolving non-zero guild id is recorded, and id 0 never is. The answer is true iff the id was new. Nothing else changes. |
| AccessLists.AddExpression | house.cpp:339-371 | A line equal to a stored expression text is refused, leaving the list unchanged. Otherwise the line's expression text and its compiled rule are appended, and the texts and rules stay in step. |
| AccessLists.CompiledRuleAgrees | house.cpp:362-368 | The stored expression text and the compiled rule agree on polarity and on the pattern. |
| AccessLists.EntriesOfIndex | house.cpp:282-308 | Entry `i` is the classification of normalized line `i`. |
| AccessLists.AddEntry | house.cpp:298-308 | One line adds its resolved player id, its resolved guild id, or its rule, or nothing. A rule line equal to a stored text adds nothing; any other rule line appends its expression text and its compiled rule. The text and the other sources are untouched. |
| AccessLists.ParseEntries | house.cpp:282-309 | The line loop keeps the texts and rules in step and the raw text unchanged. |
| AccessLists.ParseList | house.cpp:269-311 | Parsing rebuilds every source from the text alone and keeps the text verbatim. An empty text gives an empty list, and no guild id 0 is ever present. |
| AccessLists.ParseThenGetList | house.cpp:402-405 | A list reads back exactly as written, comments and blank lines included. |
| AccessLists.ParsedPlayers | house.cpp:282-311 | A player id is in the parsed list iff it was present before or some line resolves to it. |
| AccessLists.ParsedGuilds | house.cpp:282-311 | A guild id is in the parsed list iff it was present before or some guild line resolves to it. |
| AccessLists.ParseListPlayers | house.cpp:269-311 | The player ids of a parsed list are exactly the resolved names of its player lines. |
| AccessLists.ParseListGuilds | house.cpp:269-311 | The guild ids of a parsed list are exactly the non-zero resolved ids of its guild lines. |
| AccessLists.ParsedExpressionsPrefix | house.cpp:362 | Rules are appended in line order, so the earlier rules stay a prefix. |
| AccessLists.ParseEntriesAppend | house.cpp:282-309 | Lines are applied one after another: the last line acts on the list that the lines before it built. |
| AccessLists.ParsedRules | house.cpp:282-309 | A parse appends, after the rules already present, exactly the expression texts and compiled rules of the rule lines that the duplicate check lets through, in line order. |
| AccessLists.ParseListRules | house.cpp:269-311 | The texts and rules of a parsed list are exactly those of its rule lines that the duplicate check lets through, in line order. |
| AccessLists.KeptFromLines | house.cpp:341-346 | Only rule lines are let through the duplicate check. |
| AccessLists.KeptCoversLines | house.cpp:341-346 | A rule line that is not let through equals a text stored before it: one present beforehand, or the expression text of an earlier line. |
| AccessLists.KeptAllWithoutClashes | house.cpp:341-371 | When no rule line equals a stored text or the expression text of an earlier line, every rule line is let through, in order. |
| AccessLists.RuleLinesAppend | house.cpp:282-308 | The rule lines of two runs of lines are those of the first run followed by those of the second. |
| AccessLists.RuleLineAt | house.cpp:282-308 | A rule line's place among the rule lines is the number of rule lines before it. |
| AccessLists.RuleLinesInOrder | house.cpp:282-308 | Of two rule lines, the earlier one comes first among the rule lines. |
| AccessLists.ParsedRulesFollowLines | house.cpp:269-400 | When every rule line is let through, the rule of an earlier line sits before the rule of a later one. The later rule then never decides a name that the earlier one matches. |
| AccessLists.FirstMatch | house.cpp:380-389 | There is no answer iff no rule matches. Otherwise the answer is the polarity of the first matching rule. |
| AccessLists.FirstRuleIsUnique | house.cpp:380-389 | The first matching rule is unique. |
| AccessLists.FirstMatchingRuleDecides | house.cpp:373-400 | The first rule that matches the lower-cased name gives the membership answer, whatever the id sets hold. |
| AccessLists.NoMatchingRuleUsesSets | house.cpp:391-399 | With no matching rule, membership is exactly membership of the player id or the guild id. |
| AccessLists.DuplicateCheckComparesWithExpressionText | house.cpp:341-346 | The line `a?` is stored as `a.?`. A later line `a.?` is refused, so `a.z` stays out, while a repeated `a?` is stored again. |
| AccessLists.OptRuleText | house.cpp:349-368 | The line `a?` gives the text `a.?` and the rule "`a` then at most one character". |
| AccessLists.OptRuleRejects | house.cpp:381 | The rule "`a` then at most one character" does not match `a.z`. |
| AccessLists.NormalizeKeepsCleanLine | house.cpp:283-291 | A lower-case line with no surrounding blanks is left as it is by trimming and lower-casing. |
| AccessLists.LinesCons | house.cpp:280-282 | A line without a newline, followed by a newline, is the first line yielded. |
| AccessLists.PlainLineEntries | house.cpp:282-308 | The list `n`, `!n`, `@g` classifies as a player name, a rule and a guild. |
| AccessLists.NameRuleGuildParse | house.cpp:269-337 | Parsing `n`, `!n`, `@g` records `n`'s id and `g`'s guild id, and exactly the negative rule for `n`. |
| AccessLists.NegatedRuleOverridesNameAndGuild | house.cpp:373-400 | In the list `n`, `!n`, `@g` the negative rule shuts `n` out although its id and guild are recorded, while any other member of the guild is admitted. |
| Houses.NewHouse | house.cpp:31-42 | The constructor defaults: no owner, rent, paid date or town, the origin entry, no tiles or doors, and empty lists. |
| Houses.SetHouse | house.cpp:434-444 | A door is bound only if unbound, and binding allocates an empty list. |
| Houses.DoorBindsOnce | house.cpp:434-444 | A second binding changes nothing, and a freshly bound door's list admits nobody. |
| Houses.DoorSetAccessList | house.cpp:457-466 | An unbound door ignores the list, and a bound door re-parses it. |
| Houses.DoorGetAccessList | house.cpp:468-478 | A list exists iff the door is bound, and it is the door's text. |
| Houses.DoorListRoundTrip | house.cpp:457-478 | A bound door's list reads back as written. An unbound door stores and returns nothing. |
| Houses.EmptyAdmitsNobody | house.cpp:259-262 | A fresh list admits no player. |
| Houses.DoorCanUse | house.cpp:446-455 | Anyone passes a door of no house. A house door passes exactly administrators, the owner, and the players its own list admits. |
| Houses.AccessLevel | house.cpp:95-110 | Each level holds iff the conditions checked before it fail and its own condition holds: first administrator or owner, then the sub-owner list, then the guest list. |
| Houses.IsInvited | house.cpp:202-210 | A player is invited iff they are an administrator, the owner, or on one of the two lists. |
| Houses.CanEditAccessList | house.cpp:240-257 | Editing the guest list needs at least sub-owner rank. Every other list needs owner rank. |
| Houses.EditRightsMonotone | house.cpp:240-257 | A player ranked at least as high as an editor may edit the same list, and every editor is invited. |
| Houses.AddDoor | house.cpp:212-216 | The door is appended after the existing ones, with its id and description, and nothing else of the house changes. An unbound door becomes bound to this house with an empty list; a bound door is appended as it is. |
| Houses.DoorIndex | house.cpp:218-227 | The lookup finds the first door with the id, or reports that no door has it. |
| Houses.AddDoorLookup | house.cpp:212-227 | Appending a door keeps every earlier lookup and makes the new door's id found. |
| Houses.SetHouseOwner | house.cpp:55-93 | The behaviour on an owner change: <br>- the same guid changes nothing; <br>- otherwise the owner becomes the guid if it resolves, and nobody otherwise; <br>- a previous owner's lists and paid date are wiped; <br>- without a previous owner, the lists, the paid date and every door list are kept; <br>- an unbound door always keeps its list; <br>- every door keeps its id and binding, and gets the description naming the house and the new owner, or "Nobody"; <br>- no other field changes. |
| Houses.OwnerChangeWipesDoors | house.cpp:60-74 | After an owner change away from a real owner, every bound door has an empty list. |
| Houses.TransferClearsInvitations | house.cpp:55-93 | Handing a house from a resolving owner to anyone else leaves empty lists, empty door lists and paid date 0. Only administrators and the new owner are then invited. |
| Houses.SetHouseOwnerIdempotent | house.cpp:55-93 | Setting the same owner twice is setting it once. |
| Houses.Uninvited | house.cpp:158-165 | Exactly the players among the tile's creatures whom the house does not invite. |
| Houses.Sweep | house.cpp:152-167 | Exactly the players standing on some given tile whom the house does not invite. |
| Houses.SetAccessList | house.cpp:130-175 | The guest and sub-owner ids re-parse that list and teleport only players the edited house does not invite, never an administrator or the owner. Any other id teleports nobody, touches no field but the doors, keeps the number of doors, and changes nothing when no door has the id. |
| Houses.EditSweepsExactlyUninvited | house.cpp:130-175 | Editing the guest or sub-owner list re-parses that list and teleports exactly the uninvited players on the house tiles, never an administrator or the owner. |
| Houses.DoorEditIsLocal | house.cpp:138-150 | A door id re-parses the list of the first door with that id, and of no other door, and teleports nobody. An unknown id changes nothing. |
| Houses.GetAccessList | house.cpp:177-200 | The guest and sub-owner ids always give their list's text. Any other id gives a text iff the first door with that id exists and is bound, and the text is that door's list text. |
| Houses.ListRoundTrip | house.cpp:130-200 | Every list reads back as last written: the two house lists always, and a door's list when the id names a bound door. An unknown id reads as nothing. |
| Houses.KickPlayer | house.cpp:112-128 | A successful teleport implies the kick answered true. |
| Houses.KickAnswer | house.cpp:112-128 | The answer is true iff the named player is online, stands in this house, and ranks no higher than the kicker. It does not depend on the teleport. |
| Houses.KickByRank | house.cpp:112-128 | An owner may remove anyone in the house. An uninvited player cannot remove an invited one. |
| Houses.PayHouse | house.cpp:571-610 | One house of the rent run comes back unchanged on every path. Its owner is loaded and saved iff the house is due, its town exists, the owner's guid resolves to a name, and that player's record loads. |
| Houses.PayHouses | house.cpp:566-614 | The rent run answers true and gives back every house as it was, for every time. It saves at most one owner per house, and none when no house is due. |
| Houses.PayHousesSaves | house.cpp:570-612 | The owners saved are exactly the owners of the houses that take the save path. |
| Houses.RentRunAtCurrentTime | house.cpp:568-573 | At the fixed time 0 the rent run saves nobody and changes nothing. A house one tick past its paid date is due iff it is owned and rented. |
| Things.NewThing | thing.cpp:9-13 | A new thing has no parent and a use count of 0. |
| Things.UseThing | thing.cpp:22-25 | The use count grows by one, and nothing else changes. |
| Things.ReleaseThing | thing.cpp:27-33 | The use count drops by one, and the thing is destroyed iff the count is then not positive. |
| Things.UseThenRelease | thing.cpp:22-33 | A use followed by a release restores the count, and destroys the thing iff the count was not positive before. |
| Things.FreshThingDiesOnFirstRelease | thing.cpp:9-33 | A new thing used once dies on its first release. Used twice, it survives one release. |
| Things.Root | thing.cpp:44-47 | The end of the parent chain is a thing without a parent. |
| Things.ChildOfRoot | thing.cpp:44-47 | The last link below the root is a child of the root, and is the thing itself or a cylinder. |
| Things.AboveSharesRoot | thing.cpp:44-47 | Everything above a thing on its chain has the same root. |
| Things.GetTopParent | thing.cpp:35-75 | The loop returns the top parent as defined: <br>- for a thing without a parent, itself if it is a cylinder, and nothing otherwise; <br>- otherwise the child of the root if that is a cylinder, and else the root. |
| Things.TopParent | thing.cpp:35-75 | There is no top parent iff the thing has no parent and is no cylinder. A top parent is a cylinder, and is the root or a child of it. |
| Things.TileOf | thing.cpp:77-97 | A tile found is a tile without a parent. A tile without a parent is its own tile. |
| Things.GetTile | thing.cpp:77-97 | The tile is the root of the chain when the root is a tile, and nothing otherwise. |
| Things.GetPosition | thing.cpp:99-102 | The position is that of the root tile. |
| Things.ContainedThingsShareTile | thing.cpp:77-97 | A thing and anything containing it lie on the same tile. |
| Things.IsRemoved | thing.cpp:104-114 | A thing is removed iff its chain ends in something other than a tile, or in a tile that reports itself removed. |
| NetworkMessages.FromLEOfLE | networkmessage.h:59-71 | Decoding the little-endian bytes of a value gives back the value. |
| NetworkMessages.FromLE4 | networkmessage.h:67-71 | Four little-endian bytes are a 32-bit value, least significant byte first. |
| NetworkMessages.Put | networkmessage.h:86-103 | The bytes are stored at the cursor, and every other byte is unchanged. |
| NetworkMessages.New | networkmessage.h:39-44 | The constructor gives an empty message with its cursor after the header, no encryption and no key. |
| NetworkMessages.Reset | networkmessage.h:48-51 | Reset empties the message, puts the cursor after the header, and keeps the buffer and the encryption state. |
| NetworkMessages.EmptyIffNoLength | networkmessage.h:124-128 | A message is empty iff its length is 0, and it is empty after a reset. |
| NetworkMessages.SetEncryptionKey | networkmessage.h:77-80 | The key is stored and marked set, and nothing else changes. |
| NetworkMessages.SetEncryptionState | networkmessage.h:76 | Only the encryption flag changes. |
| NetworkMessages.Append | networkmessage.h:86-103 | A write that does not fit changes nothing. One that fits stores its bytes at the cursor, advances the cursor and the length by its width, and stays short of the reserve. |
| NetworkMessages.AddByte | networkmessage.h:86-91 | A byte that fits is stored at the cursor, and the cursor and length grow by 1. No other byte, and neither the encryption flag nor the key, changes. Otherwise nothing changes. |
| NetworkMessages.AddU16 | networkmessage.h:92-97 | A 16-bit value that fits is stored least significant byte first, and the cursor and length grow by 2. No other byte, and neither the encryption flag nor the key, changes. Otherwise nothing changes. |
| NetworkMessages.AddU32 | networkmessage.h:98-103 | A 32-bit value that fits is stored least significant byte first, and the cursor and length grow by 4. No other byte, and neither the encryption flag nor the key, changes. Otherwise nothing changes. |
| NetworkMessages.GetByte | networkmessage.h:58 | Returns the byte at the cursor, and advances the cursor by 1. |
| NetworkMessages.GetU16 | networkmessage.h:59-63 | Returns the little-endian value of the two bytes at the cursor, and advances the cursor by 2. |
| NetworkMessages.GetU32 | networkmessage.h:67-71 | Returns the little-endian value of the four bytes at the cursor, and advances the cursor by 4. |
| NetworkMessages.SkipBytes | networkmessage.h:83 | Only the cursor moves, by exactly the count, which may be negative. |
| NetworkMessages.ScalarOf | networkmessage.h:58-71 | A value of a given width becomes the scalar of that width. |
| NetworkMessages.AddIsTheWrite | networkmessage.h:86-103 | The generic write of a scalar is `AddByte`, `AddU16` or `AddU32`, according to its width. |
| NetworkMessages.AddAll | networkmessage.h:86-103 | A run of writes only advances the cursor, and the cursor and the length advance together. |
| NetworkMessages.Get | networkmessage.h:58-71 | The generic read advances the cursor by the width of the shape. |
| NetworkMessages.GetIsTheRead | networkmessage.h:58-71 | The generic read of a shape is `GetByte`, `GetU16` or `GetU32`. |
| NetworkMessages.GetAfterAdd | networkmessage.h:58-103 | A value written and read back at the same place is the same value. |
| NetworkMessages.AddAllReadsBack | networkmessage.h:58-103 | Any run of writes that fits reads back, from where writing started, as the same values, and leaves the cursor where writing stopped. |
| NetworkMessages.AddAllKeepsPrefix | networkmessage.h:86-103 | Writes leave the bytes before the cursor alone. |
| NetworkMessages.AddAccepted | networkmessage.h:86-103 | A write that fits advances the cursor by its width and stores its little-endian bytes. |
| NetworkMessages.ResetWriteResetRead | networkmessage.h:48-103 | After a reset, any run of writes that fits, and another reset, the reads give back the values written. |
| NetworkMessages.GetAllIgnoresSize | networkmessage.h:58-71 | Reads do not depend on the message length. |
| NetworkMessages.ExtremeValuesRoundTrip | networkmessage.h:48-103 | 0 and the maximum of each width survive a write and read-back. |
| NetworkMessages.AddAllKeepsCursorInvariant | networkmessage.h:86-103 | Writes keep the cursor equal to the header plus the length, and short of the reserve once anything was written. |
| NetworkMessages.WritesAfterResetKeepCursor | networkmessage.h:48-103 | From a reset, any run of writes keeps the cursor at the header plus the length. |
| NetworkMessages.DroppedWriteLeavesNoTrace | networkmessage.h:86-103 | A 4-byte value that does not fit leaves no trace. A byte written after it still lands at the same place and adds 1 to the length. |
| Items.DefaultType | items.cpp:30-79 | The constructor defaults, including id 100, 8 container slots, decay time 60, all three equip slots, and `blockPickupable` on. |
| Items.Getc | items.cpp:170-171 | `fgetc` returns the byte at the position and advances, or -1 at the end of the file without moving. |
| Items.Skip | items.cpp:242-248 | Skipping `n` bytes stops at the end of the file. |
| Items.SeekBy | items.cpp:393 | A relative seek before the start of the file fails and leaves the position unchanged. |
| Items.Wrap32 | items.cpp:393 | The seek distance is the 32-bit two's-complement value of the product. |
| Items.OptionConsumesPayload | items.cpp:185-379 | Every option consumes exactly its payload, or what is left of the file. |
| Items.OptionEffect | items.cpp:185-379 | Options only add flags and read/write bits. Only `0x13` touches `blockPickupable`, and only `0x00` touches the speed. |
| Items.OptionTable | items.cpp:201-241 | Options `0x02`, `0x03`, `0x04`, `0x0B`, `0x0D` and `0x0F` set their documented flags. |
| Items.OptionTableReadWrite | items.cpp:273-289 | `0x13` clears `blockPickupable` and leaves the flags and the read/write bits as they were. `0x07` makes an item readable and writable, and `0x08` readable. |
| Items.OptionsWithSubByte | items.cpp:187-195 | `0x00` reads the speed, marks a ground tile, blocks it iff the speed is 0, and consumes 2 bytes. The `0x1D` sub-bytes `0x50`, `0x51` and `0x58` give a door, a locked door and a readable item, and any other sub-byte gives nothing. |
| Items.ReadOptions | items.cpp:170-380 | The option loop ends just after a `0xFF` or at the end of the file, and only grows the type. |
| Items.SpriteHeaderLength | items.cpp:383-393 | With a full header, the sprite data starts 6 bytes on, or 7 for large sprites, and has the length of the header's product. |
| Items.ReadRecord | items.cpp:127-397 | A record is stored under the id it is read for. |
| Items.TruncatedRecordLoopsForever | items.cpp:127-397 | The loop as written never ends on a 12-byte header followed by `FF 01`. |
| Items.Records | items.cpp:127-397 | The corrected loop reads every file to an end: at least one record when data remains, with consecutive ids. |
| Items.RecordEndIgnoresId | items.cpp:127-397 | Where a record ends does not depend on its id. |
| Items.RecordsAgreeWhenAdvancing | items.cpp:127-397 | On a file whose records all move forward, the loop as written and the corrected loop read the same records. |
| Items.TruncatedRecordIsReadOnce | items.cpp:127-397 | The corrected loop reads that truncated file as one default record. |
| Items.Liquids | items.cpp:402-406 | Ids 0 to 39 each hold a default type under their own id. |
| Items.StoreRecords | items.cpp:396-397 | The records are stored under consecutive ids, and every other entry is kept. |
| Items.LoadFromDat | items.cpp:97-409 | A file that cannot be opened gives -1 and leaves the table alone. Otherwise the answer is 0, the records sit under ids 100 and up in file order, and the liquid ids hold default types. No other id is added, and every other entry of the table is kept. |
| Items.Lookup | items.cpp:784-795 | A known non-null entry is returned, and the default type otherwise. |
| Items.LookupAfterLoad | items.cpp:784-795 | After loading, a liquid id finds its own default type, and a record id finds its record. An unknown id falls back to the default type, whose id 100 is that of the first record. |

## Left out

- The XML loaders (`loadHousesXML`, `Door::unserialize`, the XML item list) read files through libxml. They are not modelled. The properties only the XML item list sets (`readonlyId`, `runeMagLevel`, `magicFieldType`, `maxItems`, the slots, `attack`, `defence`, `armor`, `decayTo`, `decayTime`, `canDecay`, `damage`) are kept in `Items.Stats` at their constructor defaults (items.cpp:30-79).
- Items.DefaultType: the item-type fields `weight` (a floating-point value), `weaponType`, `amuType` and `shootType` (items.cpp:67-71), and the `name` and `description` strings, are not part of `Items.ItemType`. Only the XML item list changes them from their defaults, and nothing in this model reads them.
- `payHouses`: the town lookup, the owner's name and whether the owner's record loads are given as a `Registry`. Loading and saving the record are reduced to the list of owners saved. The depot lookup is not modelled, because its branch is empty. The houses are taken in map order, as a sequence.
- `addTile`, `getDoorByPosition` and the protection-zone flag of house tiles are not modelled. They belong to the map, which is not part of this model.
- Regular expressions: the rule matcher is a wildcard matcher. Lemmas show that the regular expression the server builds from a rule line denotes exactly that wildcard pattern, with escaped metacharacters as literals, `.*` for `*` and `.?` for `?`. Boost's regex engine itself is not modelled.
- `trim_left`, `trim_right` and `replaceString` live in `tools.cpp`, which is not part of this model. They are taken to remove a leading or trailing run of the character, and to replace every occurrence left to right.
- The `GUEST_LIST` and `SUBOWNER_LIST` constants come from `house.h`, which is not part of this model. Two distinct ids stand for them. A door whose id equals one of them is shadowed, as in the server.
- The flag `parseList` returns is always true, so `AccessLists.ParseList` returns only the parsed list.
- Teleports and magic effects are results handed back to the caller, not calls into the game. `setAccessList` returns the players to teleport, and `kickPlayer` returns whether the teleport succeeded.
- In `networkmessage.h`, the socket I/O, XTEA and RSA are not modelled. Neither are `AddBytes`, `AddString`, `GetString`, `GetRaw`, `GetPosition`, `AddPosition`, `AddItem`, `AddItemId`, `AddCreature` and `JoinMessages`, which are declared there but defined elsewhere. `GetSpriteId` is `GetU16` under another name.
- NetworkMessages.GetByte: the server's reads check nothing. The model requires the bytes read to lie inside the buffer, because reading outside it is undefined behaviour in the server.
- NetworkMessages.GetU16: requires the two bytes read to lie inside the buffer, for the same reason.
- NetworkMessages.GetU32: requires the four bytes read to lie inside the buffer, for the same reason.
- The cursor and the length are unbounded integers. The server's 32-bit `int` fields could only overflow after about 2^31 unchecked `SkipBytes`, which is not modelled.
- Multi-byte values are stored and read least significant byte first, which is what the pointer casts do on the little-endian hosts the server runs on. The buffer size `NETWORKMESSAGE_MAXSIZE` is the length of the buffer.
- Debug output under `__DEBUG__` and `__DEBUG_HOUSES__`, and the message printed for unknown option bytes, are not modelled.
- `fopen`, `fseek(SEEK_END)` and `ftell` become a byte sequence and its length. A file that cannot be opened is `None`.
- The const and non-const versions of `getTopParent` and `getTile` have the same body, so each pair is modelled by one member.
- The sprite product `width*height*blendframes*xdiv*ydiv*animcount*2` is computed in a 32-bit `int`. Its overflow is undefined behaviour in C++. It is modelled as two's-complement wrap-around (`Items.Wrap32`).
- Things.GetTile: requires that the top parent exists, because the server dereferences it without a check.
- Things.GetPosition: requires a tile, because the server dereferences the tile without a check.
- Items.LoadFromDat: models the corrected record loop of the Findings table, not the loop as written. The two agree on every file whose records all move the position forward (`Items.RecordsAgreeWhenAdvancing`). On a file with a truncated last record, the server's loop does not end.
- NetworkMessages.Append: requires a cursor that is not negative. A negative `SkipBytes` can put the cursor before the buffer, and the server's write there is undefined behaviour.
- NetworkMessages.AddByte: requires a cursor that is not negative, for the same reason.
- NetworkMessages.AddU16: requires a cursor that is not negative, for the same reason.
- NetworkMessages.AddU32: requires a cursor that is not negative, for the same reason.
- Text is a sequence of `char`, one per byte of the server's `std::string`, so the model is exact for ASCII text only. For other text, the length limit of 100 counts bytes in the server, `.?` matches one byte, and `tolower` on a negative `char` is undefined behaviour.
- A house holds its doors by value. In the server, the house and the map share one `Door` object, so a change made through the map is seen by the house. Here every door change goes through the house.
- Houses.DoorCanUse: requires the door's house to be the house passed in. The door holds a pointer to its house, which the model passes as a parameter.

## Findings

| source | as written | input that shows it | evidently intended | confidence | as-written member | corrected member |
|---|---|---|---|---|---|---|
| items.cpp:127-397 | The record loop runs while the file position is before the end. A truncated last record reads -1 for every missing sprite-header byte. The product of the header bytes can then be negative, and `fseek(SEEK_CUR)` moves the position back to where the record started. | A file of 12 header bytes followed by `FF 01`. The record reads `FF` (no options) and width 1, and every later byte as -1. The product is 1·(−1)^5·2 = −2, so the seek goes from 14 back to 12, and the same record is read again forever. | Loading ends at a truncated record: a record that does not move the position forward is the last one. | not executed | Items.TruncatedRecordLoopsForever | Items.TruncatedRecordIsReadOnce |
