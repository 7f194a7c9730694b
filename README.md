# Roguelike turn kernel in Dafny

This project models the core of a small tile-grid roguelike. That core covers:

- the room generator and the tile queries of the game world;
- the player's health updates;
- the bounded message log;
- the movement step that either moves the player, refuses the move, or makes the player interact with the NPC standing on the target tile;
- the win/loss evaluator of the three game modes;
- the display tables (glyph and colour) of items and NPCs.

Modules follow the source files:

| module | file | content |
|---|---|---|
| `Items` | `items.dfy` | item kinds, `Item`, glyphs and colours, `ItemUseResult` (src/item.rs) |
| `Npcs` | `npcs.dfy` | NPC kinds, `NPC`, glyphs and colours, `InteractionResult` (src/npc.rs) |
| `State` | `state.dfy` | the NPC-aware state (src/state.rs): `Player`, `GameWorld`, `GameState`, the layout, health and log specifications |
| `Legacy` | `legacy.dfy` | the older, NPC-free `GameState` (src/main.rs) |
| `Conditions` | `conditions.dfy` | `GameStatus`, the three game modes and their lemmas (src/game_condition.rs) |
| `Options` | `options.dfy` | the `Option` datatype |

Modelling choices:

- The state-changing code is imperative Dafny. `Player`, `GameWorld` and the two `GameState`s are classes. Their methods state exactly what changes, in terms of specification functions: `AfterDamage`, `AfterHeal`, `RoomTile`, `AppendBounded`, `FindNpcAt`, `MoveToBack`. Lemmas prove what the source promises about those functions.
- The grid is an `array2<TileType>` indexed `tiles[x, y]`, with `Length0 == width`. Room generation is the source's nested loop. Its postcondition is the closed-form layout, and that layout does not depend on the old contents, so generating twice yields the same grid.
- `GameWorld::default` and `GameWorld::new` both call the shared room loop. In the source, `default` has its own copy of that loop.
- src/main.rs repeats `Player` and `GameWorld`. The model defines each once:
  - `State.Player<T>` is generic in the inventory element. src/state.rs uses `Item`; src/main.rs uses `String`.
  - Legacy uses `State.GameWorld` unchanged. Its world never touches `items`, which src/main.rs's world does not have.
  - Only the `GameState` of src/main.rs is modelled separately, because its movement step differs.
- Log entries are an abstract `Message` datatype, for example `Moved(x, y)` and `Interacted(name)`. They stand in for the formatted strings.
- src/state.rs declares its own `Item`/`ItemType` with kinds Weapon … Treasure. The model keeps them in `State`, to match that file. Its `NPC` has an inventory field and reuses `Npcs.NPCType`; the two enums have the same five variants.
- The evaluator works on an abstract `Snapshot`: health, the kinds of the carried items (src/item.rs's `ItemType`), and the log length. The source imports `ItemType` from src/item.rs, but src/state.rs's inventory holds a different item type, so the evaluator does not read a `GameState` directly. The `GameCondition` trait becomes the datatype `Condition`, and `CheckStatus` dispatches on it.
- Collection mode exists twice: `CollectionStatus` is the specification, with a quantifier over the requirements. `CheckCollection` is the source's early-exit loop, proved equal to it.
- `Item::new` and `NPC::new` copy their fields, so they are the datatype constructors `Item(t, n, d)` and `NPC(p, t, n)`.
- `Conditions.IsAlive` is the snapshot's copy of `State.Player.IsAlive`; `Conditions.LostIffDead` ties the two together.
- Integers are unbounded. See "Left out".

## Model

| member | source | states |
|---|---|---|
| `Items.Item.DisplayChar` | src/item.rs:33-42 | every item kind has a glyph, one of `- = $ * ? !` |
| `Items.Item.DisplayInfo` | src/item.rs:44-55 | the first component is the glyph; the colour is gold exactly for keys and treasure |
| `Items.GlyphDeterminesType` | src/item.rs:33-42 | two items have the same glyph iff they have the same kind (the six glyphs are distinct) |
| `Items.ColourSharedOnlyByGold` | src/item.rs:46-53 | two items share a colour iff same kind or both gold (Key and Treasure); other colours are distinct |
| `Npcs.NPC.DisplayChar` | src/npc.rs:35-43 | every NPC kind has a glyph, one of `g O S M G` |
| `Npcs.NPC.DisplayInfo` | src/npc.rs:45-55 | the first component of the display info is the glyph |
| `Npcs.GlyphDeterminesType` | src/npc.rs:35-43 | the five NPC glyphs are pairwise distinct |
| `Npcs.ColourDeterminesType` | src/npc.rs:47-53 | the five NPC colours are pairwise distinct |
| `State.RoomTileWalkableIffInterior` | src/state.rs:202-215 | in the layout, a cell is walkable iff 0 < x < w-1 and 0 < y < h-1 (border is Wall, interior Floor/Empty) |
| `State.AfterDamage` | src/state.rs:36-38 | health after damage is max(health - damage, 0): never negative, and not higher when damage and health are non-negative |
| `State.AfterHeal` | src/state.rs:40-42 | health after healing is min(health + amount, max): never above max, and not lower for a non-negative amount when health was at most max |
| `State.DamageKeepsHealthInRange` | src/state.rs:36-38 | non-negative damage keeps 0 <= health <= max |
| `State.HealKeepsHealthInRange` | src/state.rs:40-42 | a non-negative heal keeps 0 <= health <= max |
| `State.AppendBounded` | src/state.rs:267-274 | the new message is last; below the cap it is a plain append; at the cap the oldest entry is dropped and the rest shift; a log within the cap stays within it |
| `State.AppendBoundedIsNewest` | src/state.rs:267-274 | one append to a log within the cap keeps exactly the newest 50 entries |
| `State.AppendStep` | src/state.rs:267-274 | appending the first message with eviction and then the rest keeps the same newest 50 entries as appending all at once |
| `State.AppendAllKeepsNewest` | src/state.rs:267-274 | after any number of appends the log holds exactly the newest 50 entries in order (FIFO eviction) |
| `State.FindNpcAt` | src/state.rs:286 | returns the index of the first NPC on the target tile, or none iff no NPC stands there |
| `State.MoveToBack` | src/state.rs:288-294 | removing an NPC and pushing it back keeps the others in order, puts it last and preserves the multiset |
| `State.MoveToBackKeepsApart` | src/state.rs:286-295 | re-inserting an NPC at the back keeps NPCs on distinct tiles |
| `State.Player.Default` | src/state.rs:11-22 | the default player is at (10, 15) with 100/100 health, level 1, no experience, empty inventory |
| `State.Player.constructor` | src/state.rs:25-30 | `Player::new(x, y)` is the default player placed at (x, y) |
| `State.Player.IsAlive` | src/state.rs:44-46 | the player is alive iff health > 0 |
| `State.Player.MoveTo` | src/state.rs:32-34 | the position becomes the given one and nothing else changes |
| `State.Player.TakeDamage` | src/state.rs:36-38 | health becomes `AfterDamage`; the player is dead afterwards iff damage >= old health; the health range is preserved for non-negative damage |
| `State.Player.Heal` | src/state.rs:40-42 | health becomes `AfterHeal`, at most max; it does not decrease for a non-negative amount; the range is preserved |
| `State.GameWorld.Default` | src/state.rs:163-188 | the default world is a 50x30 generated room on floor 1 with no items |
| `State.GameWorld.constructor` | src/state.rs:191-200 | `GameWorld::new(w, h)` is a w x h generated room on floor 1 with no items |
| `State.GameWorld.GenerateSimpleRoom` | src/state.rs:202-215 | every cell holds the closed-form layout (border Wall, interior Floor iff (x+y) % 7 == 0, else Empty); regenerating a room changes no cell |
| `State.GameWorld.IsValidPosition` | src/state.rs:232-234 | (x, y) is valid iff 0 <= x < width and 0 <= y < height; it reads no tile |
| `State.GameWorld.GetTile` | src/state.rs:217-223 | returns the cell's tile, and none exactly when (x, y) is out of bounds |
| `State.GameWorld.IsWalkable` | src/state.rs:225-230 | walkable implies in bounds; in bounds it is walkable iff the tile is Floor, Door or Empty |
| `State.GameWorld.RoomWalkableIffInterior` | src/state.rs:202-230 | on a generated room, `IsWalkable(x, y)` iff 0 < x < width-1 and 0 < y < height-1 |
| `State.GameState.constructor` | src/state.rs:247-265 | the default player (at (10, 15), 100/100 health, level 1, no experience, empty inventory) and the default world (50x30 room, floor 1, no items), the four named NPCs, three greetings; the player and every NPC stand on distinct walkable tiles |
| `State.GameState.AddLogMessage` | src/state.rs:267-274 | the log becomes `AppendBounded(old log, m)` |
| `State.GameState.InteractWithNpc` | src/state.rs:304-306 | logs the interaction naming the NPC and changes nothing else |
| `State.GameState.TryMovePlayer` | src/state.rs:276-302 | three outcomes. A blocked target: false, nothing moves, "can't move" is logged. An NPC on the target: false, the player stays, the first such NPC goes to the back, the interaction is logged. Otherwise: true, the player moves to old + (dx, dy), the move is logged. The NPC multiset is kept, and so is the separation of player and NPCs |
| `Legacy.GameState.constructor` | src/main.rs:148-159 | the default player (at (10, 15), 100/100 health, level 1, no experience, empty inventory) on a walkable cell of the default 50x30 room on floor 1; three greetings |
| `Legacy.GameState.AddLogMessage` | src/main.rs:161-168 | the log becomes `AppendBounded(old log, m)` |
| `Legacy.GameState.TryMovePlayer` | src/main.rs:170-182 | returns true iff the target is in bounds and walkable; only then does the position change, to old + (dx, dy); the move or the refusal is logged |
| `Conditions.Count` | src/game_condition.rs:116-118 | the number of carried items of a kind is at most the inventory size |
| `Conditions.CountAppend` | src/game_condition.rs:116-118 | counting distributes over concatenation of inventories |
| `Conditions.CountIsMultiplicity` | src/game_condition.rs:116-118 | the count of a kind is its multiplicity in the inventory |
| `Conditions.TreasureHuntStatus` | src/game_condition.rs:30-42 | Lost iff dead; Won iff alive and some carried item is a Treasure; Playing otherwise |
| `Conditions.SurvivalStatus` | src/game_condition.rs:68-82 | Lost iff dead; Won iff alive and log length >= target; Playing otherwise |
| `Conditions.CheckCollection` | src/game_condition.rs:108-126 | the early-exit scan returns Lost iff dead, and Won iff alive and every (kind, n) requirement has count >= n |
| `Conditions.CheckStatus` | src/game_condition.rs:14 | the status under the chosen mode; every mode returns Lost exactly when the player is dead, whatever the inventory or log |
| `Conditions.LostIffDead` | src/game_condition.rs:30-126 | for a snapshot of an actual player, every mode returns Lost iff that player's `IsAlive` is false |
| `Conditions.SurvivalBeyondCapUnwinnable` | src/game_condition.rs:77-81 | with the log within its cap of 50, a survival target above 50 is never Won |
| `Conditions.SurvivalBeyondCapUnwinnableInGame` | src/state.rs:267-274 | for the health and log of any valid game state, a survival target above 50 is never Won |
| `Conditions.CollectionWithoutRequirementsWins` | src/game_condition.rs:115-125 | with no requirements, every live player has won |
| `Conditions.CollectionMonotone` | src/game_condition.rs:115-125 | appending items to the inventory never turns Won into something else |
| `Conditions.CollectionIgnoresOrder` | src/game_condition.rs:115-125 | the collection verdict depends only on the multiset of carried kinds |
| `Conditions.CollectionExamplePlaying` | src/game_condition.rs:115-125 | required (Gem 3, Scroll 2, Potion 1) with only two gems: Playing |
| `Conditions.CollectionExampleWon` | src/game_condition.rs:115-125 | the same requirements with three gems, two scrolls and a potion: Won |

## Left out

- Integer width: positions, health and amounts are unbounded `int`. The i32 overflow of `position + dx` and `health ± amount`, and the `u32` casts in the evaluator, are not modelled.
- Log text: messages are abstract constructors, so the exact string formatting (`format!`) is not modelled.
- The window, input handling and drawing code in src/main.rs (`RoguelikeApp`, `update`, `handle_input`, the view functions, `main`) is presentation. It drives the core and holds no game logic.
- `win_description` / `loss_description` return constant strings and have nothing to verify.
- These files contain no code for NPC autonomous turns, Orc damage, Skeleton key drops, merchant drops, item pickup, item use, or per-mode world setup. `ItemUseResult` and `InteractionResult` are modelled only as the data types the source declares.
- src/state.rs's own `Item::get_display_char`, `NPC::new`, `NPC::move_to` and `WorldItem::new` (lines 101-161) are outside this model. Its `Item`, `NPC` and `WorldItem` are modelled only as data.
- State.AfterHeal: the result is not lower than the old health only when that health was at most the maximum. A health above the maximum is lowered to it, as at src/state.rs:41.
- State.Player.Heal: health does not decrease only when it was at most the maximum beforehand. With health above the maximum, which negative damage can cause, healing lowers it to the maximum, as the source does.
- `game_over` and `current_floor` are carried as fields. No core operation changes them.
