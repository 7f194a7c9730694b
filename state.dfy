/** The game state of the NPC-aware version: the player, the tile grid with its
    items, the NPC collection, the bounded message log, and the turn resolver's
    movement-and-collision step. */
module State {
  import opened Options
  import Npcs

  /** A tile coordinate (x, y). */
  type Pos = (int, int)

  // ---------------------------------------------------------------------------
  // Entities carried by this version of the state

  /** The item kinds this version of the state declares for itself. */
  datatype ItemType = Weapon | Armor | Potion | Food | Tool | Key | Treasure

  datatype Item = Item(itemType: ItemType, displayName: string, description: string)

  /** An item lying on a tile rather than in an inventory. */
  datatype WorldItem = WorldItem(position: Pos, item: Item)

  /** An NPC as this version of the state stores it (it has an inventory). */
  datatype NPC = NPC(position: Pos, inventory: seq<Item>, npcType: Npcs.NPCType, name: string)

  datatype TileType = Floor | Wall | Door | Stairs | Empty

  /** The tile kinds a player may stand on. */
  predicate Walkable(t: TileType)
  {
    t == Floor || t == Door || t == Empty
  }

  // ---------------------------------------------------------------------------
  // The deterministic room layout

  /** The tile that room generation puts at (x, y) of a `w` by `h` grid. */
  function RoomTile(w: nat, h: nat, x: nat, y: nat): TileType
  {
    if x == 0 || x == w - 1 || y == 0 || y == h - 1 then Wall
    else if (x + y) % 7 == 0 then Floor
    else Empty
  }

  /** In a generated room exactly the interior cells can be walked on: the
      border is wall, and both interior kinds (floor and empty) are walkable. */
  lemma RoomTileWalkableIffInterior(w: nat, h: nat, x: nat, y: nat)
    requires x < w && y < h
    ensures Walkable(RoomTile(w, h, x, y)) <==> 0 < x < w - 1 && 0 < y < h - 1
  {
  }

  // ---------------------------------------------------------------------------
  // Health arithmetic

  /** Health after taking `damage`: it drops by the damage but never below 0. */
  function AfterDamage(health: int, damage: int): (r: int)
    ensures r >= 0
    ensures r > 0 ==> r == health - damage
    ensures r == 0 ==> health - damage <= 0
    ensures damage >= 0 && health >= 0 ==> r <= health
  {
    if health - damage > 0 then health - damage else 0
  }

  /** Health after healing by `amount`: it rises by the amount but never above
      `maxHealth`. */
  function AfterHeal(health: int, amount: int, maxHealth: int): (r: int)
    ensures r <= maxHealth
    ensures r < maxHealth ==> r == health + amount
    ensures r == maxHealth ==> health + amount >= maxHealth
    ensures amount >= 0 && health <= maxHealth ==> health <= r
  {
    if health + amount < maxHealth then health + amount else maxHealth
  }

  /** Damage of any non-negative amount keeps health within [0, max]. */
  lemma DamageKeepsHealthInRange(health: int, damage: int, maxHealth: int)
    requires 0 <= health <= maxHealth && damage >= 0
    ensures 0 <= AfterDamage(health, damage) <= maxHealth
  {
  }

  /** Healing of any non-negative amount keeps health within [0, max]. */
  lemma HealKeepsHealthInRange(health: int, amount: int, maxHealth: int)
    requires 0 <= health <= maxHealth && amount >= 0
    ensures 0 <= AfterHeal(health, amount, maxHealth) <= maxHealth
  {
  }

  // ---------------------------------------------------------------------------
  // The bounded message log

  /** Log entries, kept abstract instead of formatted text. */
  datatype Message =
    | Welcome                    // "Welcome to the dungeon!"
    | MoveHint                   // "Press arrow keys to move."
    | ExploreHint                // "Explore carefully..."
    | CantMove                   // "Can't move there!"
    | Moved(x: int, y: int)      // "Moved to (x, y)"
    | Interacted(name: string)   // "You interact with <name>."

  /** The number of messages the log keeps. */
  const LogCap: nat := 50

  /** The log after appending `m`: the message is pushed at the end and, when
      that makes the log longer than the cap, the oldest entry is dropped. */
  function AppendBounded(log: seq<Message>, m: Message): (r: seq<Message>)
    ensures |r| > 0 && r[|r| - 1] == m
    ensures |log| < LogCap ==> r == log + [m]
    ensures |log| >= LogCap ==> r == log[1..] + [m]
    ensures |log| <= LogCap ==> |r| <= LogCap
  {
    var pushed := log + [m];
    if |pushed| > LogCap then pushed[1..] else pushed
  }

  /** The log after appending every message of `ms`, in order. */
  function AppendAll(log: seq<Message>, ms: seq<Message>): seq<Message>
    decreases |ms|
  {
    if ms == [] then log else AppendAll(AppendBounded(log, ms[0]), ms[1..])
  }

  /** The last `n` entries of `s` (all of `s` when it is shorter). */
  function Newest(s: seq<Message>, n: nat): (r: seq<Message>)
    ensures |r| == if |s| <= n then |s| else n
    ensures forall k :: 0 <= k < |r| ==> r[k] == s[|s| - |r| + k]
  {
    if |s| <= n then s else s[|s| - n..]
  }

  /** Taking the newest `n` entries before appending more changes nothing. */
  lemma NewestOfNewest(s: seq<Message>, t: seq<Message>, n: nat)
    ensures Newest(Newest(s, n) + t, n) == Newest(s + t, n)
  {
    var a, b := Newest(Newest(s, n) + t, n), Newest(s + t, n);
    assert |a| == |b|;
    forall k | 0 <= k < |a| ensures a[k] == b[k] {
      var u := Newest(s, n) + t;
      if |u| - |a| + k < |Newest(s, n)| {
        assert a[k] == Newest(s, n)[|u| - |a| + k];
      }
    }
  }

  /** Within the cap, one bounded append keeps the newest `LogCap` entries. */
  lemma AppendBoundedIsNewest(log: seq<Message>, m: Message)
    requires |log| <= LogCap
    ensures AppendBounded(log, m) == Newest(log + [m], LogCap)
  {
  }

  /** The inductive step of FIFO eviction: appending the first message with
      eviction, then the rest, keeps the same newest entries as appending all. */
  lemma AppendStep(log: seq<Message>, ms: seq<Message>)
    requires |log| <= LogCap && ms != []
    ensures Newest(AppendBounded(log, ms[0]) + ms[1..], LogCap) == Newest(log + ms, LogCap)
  {
    AppendBoundedIsNewest(log, ms[0]);
    NewestOfNewest(log + [ms[0]], ms[1..], LogCap);
    assert log + [ms[0]] + ms[1..] == log + ms;
  }

  /** FIFO eviction: however many messages are appended to a log within the
      cap, the log ends up holding exactly the newest `LogCap` of all entries
      in order. */
  lemma {:induction false} AppendAllKeepsNewest(log: seq<Message>, ms: seq<Message>)
    requires |log| <= LogCap
    ensures AppendAll(log, ms) == Newest(log + ms, LogCap)
    decreases |ms|
  {
    if ms == [] {
      assert log + ms == log;
    } else {
      AppendAllKeepsNewest(AppendBounded(log, ms[0]), ms[1..]);
      AppendStep(log, ms);
    }
  }

  // ---------------------------------------------------------------------------
  // NPC lookup and re-insertion

  /** The index of the first NPC standing on `pos`, if there is one. */
  function FindNpcAt(npcs: seq<NPC>, pos: Pos): (r: Option<nat>)
    ensures r.Some? ==> r.value < |npcs| && npcs[r.value].position == pos
    ensures r.Some? ==> forall j :: 0 <= j < r.value ==> npcs[j].position != pos
    ensures r.None? <==> forall j :: 0 <= j < |npcs| ==> npcs[j].position != pos
  {
    if npcs == [] then None
    else if npcs[0].position == pos then Some(0)
    else match FindNpcAt(npcs[1..], pos)
      case None => None
      case Some(k) => Some(k + 1)
  }

  /** The collection after removing the NPC at index `i` and pushing it back
      at the end: the others keep their order and nothing is lost or added. */
  function MoveToBack(npcs: seq<NPC>, i: nat): (r: seq<NPC>)
    requires i < |npcs|
    ensures |r| == |npcs| && r[|r| - 1] == npcs[i]
    ensures forall k :: 0 <= k < i ==> r[k] == npcs[k]
    ensures forall k :: i <= k < |npcs| - 1 ==> r[k] == npcs[k + 1]
    ensures multiset(r) == multiset(npcs)
  {
    assert npcs == npcs[..i] + [npcs[i]] + npcs[i + 1..];
    npcs[..i] + npcs[i + 1..] + [npcs[i]]
  }

  /** No two NPCs stand on the same tile. */
  ghost predicate NpcsApart(npcs: seq<NPC>)
  {
    forall i, j :: 0 <= i < |npcs| && 0 <= j < |npcs| && i != j ==> npcs[i].position != npcs[j].position
  }

  /** Moving an NPC to the back keeps NPCs on distinct tiles. */
  lemma MoveToBackKeepsApart(npcs: seq<NPC>, i: nat)
    requires i < |npcs| && NpcsApart(npcs)
    ensures NpcsApart(MoveToBack(npcs, i))
  {
    var r := MoveToBack(npcs, i);
    forall a, b | 0 <= a < |r| && 0 <= b < |r| && a != b
      ensures r[a].position != r[b].position
    {
      assert r[a] == npcs[MoveToBackSource(a, i, |npcs|)];
      assert r[b] == npcs[MoveToBackSource(b, i, |npcs|)];
    }
  }

  /** The index in the old collection that index `k` of `MoveToBack` comes from. */
  function MoveToBackSource(k: nat, i: nat, n: nat): (j: nat)
    requires i < n && k < n
    ensures j < n
  {
    if k < i then k else if k < n - 1 then k + 1 else i
  }

  // ---------------------------------------------------------------------------
  // The player

  /** The player; its inventory holds values of type `T` (this version's
      `Item`; the pre-NPC version keeps plain strings). */
  class Player<T> {
    var position: Pos
    var health: int
    var maxHealth: int
    var level: int
    var experience: int
    var inventory: seq<T>

    /** The default player: at (10, 15) with 100 of 100 health, level 1. */
    constructor Default()
      ensures position == (10, 15) && health == 100 && maxHealth == 100
      ensures level == 1 && experience == 0 && inventory == []
    {
      position := (10, 15);
      health := 100;
      maxHealth := 100;
      level := 1;
      experience := 0;
      inventory := [];
    }

    /** A default player placed at (x, y). */
    constructor (x: int, y: int)
      ensures position == (x, y) && health == 100 && maxHealth == 100
      ensures level == 1 && experience == 0 && inventory == []
    {
      position := (x, y);
      health := 100;
      maxHealth := 100;
      level := 1;
      experience := 0;
      inventory := [];
    }

    predicate IsAlive()
      reads this
      ensures IsAlive() <==> health > 0
    {
      health > 0
    }

    /** Health lies within [0, max]. */
    ghost predicate HealthInRange()
      reads this
    {
      0 <= health <= maxHealth
    }

    method MoveTo(newPos: Pos)
      modifies this`position
      ensures position == newPos
    {
      position := newPos;
    }

    method TakeDamage(damage: int)
      modifies this`health
      ensures health == AfterDamage(old(health), damage)
      ensures health >= 0 && !IsAlive() <==> old(health) <= damage
      ensures damage >= 0 && old(HealthInRange()) ==> HealthInRange()
    {
      health := if health - damage > 0 then health - damage else 0;
    }

    method Heal(amount: int)
      modifies this`health
      ensures health == AfterHeal(old(health), amount, maxHealth)
      ensures health <= maxHealth
      ensures amount >= 0 && old(health) <= maxHealth ==> health >= old(health)
      ensures amount >= 0 && old(HealthInRange()) ==> HealthInRange()
    {
      health := if health + amount < maxHealth then health + amount else maxHealth;
    }
  }

  // ---------------------------------------------------------------------------
  // The world

  /** The tile grid: `tiles[x, y]` for 0 <= x < width and 0 <= y < height. */
  class GameWorld {
    const width: nat
    const height: nat
    var currentFloor: int
    const tiles: array2<TileType>
    var items: seq<WorldItem>

    /** The grid has the declared size. */
    ghost predicate Valid()
      reads this
    {
      tiles.Length0 == width && tiles.Length1 == height
    }

    /** Every cell holds the tile of the deterministic room layout. */
    ghost predicate IsRoom()
      reads this, tiles
      requires Valid()
    {
      forall x, y :: 0 <= x < width && 0 <= y < height ==> tiles[x, y] == RoomTile(width, height, x, y)
    }

    /** The default world: a 50 by 30 room on floor 1 with no items. */
    constructor Default()
      ensures Valid() && IsRoom() && fresh(tiles)
      ensures width == 50 && height == 30 && currentFloor == 1 && items == []
    {
      width, height := 50, 30;
      currentFloor := 1;
      tiles := new TileType[50, 30]((x, y) => Empty);
      items := [];
      new;
      GenerateSimpleRoom();
    }

    /** A `w` by `h` room on floor 1 with no items. */
    constructor (w: nat, h: nat)
      ensures Valid() && IsRoom() && fresh(tiles)
      ensures width == w && height == h && currentFloor == 1 && items == []
    {
      width, height := w, h;
      currentFloor := 1;
      tiles := new TileType[w, h]((x, y) => Empty);
      items := [];
      new;
      GenerateSimpleRoom();
    }

    /** Rewrites every cell with the room layout. The result does not depend on
        what the grid held before, so generating twice changes nothing. */
    method GenerateSimpleRoom()
      requires Valid()
      modifies tiles
      ensures IsRoom()
      ensures old(IsRoom()) ==> forall x, y :: 0 <= x < width && 0 <= y < height ==> tiles[x, y] == old(tiles[x, y])
    {
      for x := 0 to width
        invariant forall i, j :: 0 <= i < x && 0 <= j < height ==> tiles[i, j] == RoomTile(width, height, i, j)
      {
        for y := 0 to height
          invariant forall i, j :: 0 <= i < x && 0 <= j < height ==> tiles[i, j] == RoomTile(width, height, i, j)
          invariant forall j :: 0 <= j < y ==> tiles[x, j] == RoomTile(width, height, x, j)
        {
          if x == 0 || x == width - 1 || y == 0 || y == height - 1 {
            tiles[x, y] := Wall;
          } else if (x + y) % 7 == 0 {
            tiles[x, y] := Floor;
          } else {
            tiles[x, y] := Empty;
          }
        }
      }
    }

    /** A pure bounds check, independent of the tiles. */
    predicate IsValidPosition(x: int, y: int)
      reads this
      ensures IsValidPosition(x, y) <==> 0 <= x < width && 0 <= y < height
    {
      0 <= x < width && 0 <= y < height
    }

    /** The tile at (x, y), or nothing exactly when (x, y) is out of bounds. */
    function GetTile(x: int, y: int): (r: Option<TileType>)
      reads this, tiles
      requires Valid()
      ensures r.None? <==> !IsValidPosition(x, y)
      ensures r.Some? ==> r.value == tiles[x, y]
    {
      if x >= 0 && y >= 0 && x < width && y < height then Some(tiles[x, y]) else None
    }

    /** Whether (x, y) is in bounds and holds floor, a door or empty space;
        out-of-bounds cells count as blocked. */
    predicate IsWalkable(x: int, y: int)
      reads this, tiles
      requires Valid()
      ensures IsWalkable(x, y) ==> IsValidPosition(x, y)
      ensures IsValidPosition(x, y) ==> (IsWalkable(x, y) <==> Walkable(tiles[x, y]))
    {
      match GetTile(x, y)
      case Some(Floor) => true
      case Some(Door) => true
      case Some(Empty) => true
      case _ => false
    }

    /** On a generated room, a cell is walkable exactly when it is interior. */
    lemma RoomWalkableIffInterior(x: int, y: int)
      requires Valid() && IsRoom()
      ensures IsWalkable(x, y) <==> 0 < x < width - 1 && 0 < y < height - 1
    {
      if 0 <= x < width && 0 <= y < height {
        RoomTileWalkableIffInterior(width, height, x, y);
      }
    }
  }

  // ---------------------------------------------------------------------------
  // The game state

  class GameState {
    const player: Player<Item>
    const world: GameWorld
    var npcs: seq<NPC>
    var log: seq<Message>
    var gameOver: bool

    /** The world grid has its declared size and the log is within its cap. */
    ghost predicate Valid()
      reads this, world
    {
      world.Valid() && |log| <= LogCap
    }

    /** No two NPCs share a tile and no NPC stands on the player's tile. */
    ghost predicate Separated()
      reads this, player
    {
      NpcsApart(npcs) && forall i :: 0 <= i < |npcs| ==> npcs[i].position != player.position
    }

    /** A new game: the default player and world, four NPCs and three
        greeting messages. Everybody starts on a distinct walkable tile. */
    constructor ()
      ensures Valid() && Separated() && world.IsRoom()
      ensures fresh(player) && fresh(world) && fresh(world.tiles)
      ensures player.position == (10, 15) && player.health == 100 && player.maxHealth == 100
      ensures player.level == 1 && player.experience == 0 && player.inventory == []
      ensures world.width == 50 && world.height == 30 && world.currentFloor == 1 && world.items == []
      ensures npcs == [NPC((5, 5), [], Npcs.Goblin, "Grob"),
                       NPC((15, 8), [], Npcs.Merchant, "The Merchant"),
                       NPC((25, 12), [], Npcs.Skeleton, "Bonecrusher"),
                       NPC((8, 20), [], Npcs.Guard, "Guard Captain")]
      ensures log == [Welcome, MoveHint, ExploreHint] && !gameOver
      ensures world.IsWalkable(player.position.0, player.position.1)
      ensures forall i :: 0 <= i < |npcs| ==> world.IsWalkable(npcs[i].position.0, npcs[i].position.1)
    {
      var p := new Player<Item>.Default();
      var w := new GameWorld.Default();
      player, world := p, w;
      npcs := [NPC((5, 5), [], Npcs.Goblin, "Grob"),
               NPC((15, 8), [], Npcs.Merchant, "The Merchant"),
               NPC((25, 12), [], Npcs.Skeleton, "Bonecrusher"),
               NPC((8, 20), [], Npcs.Guard, "Guard Captain")];
      log := [Welcome, MoveHint, ExploreHint];
      gameOver := false;
      new;
      w.RoomWalkableIffInterior(10, 15);
      w.RoomWalkableIffInterior(5, 5);
      w.RoomWalkableIffInterior(15, 8);
      w.RoomWalkableIffInterior(25, 12);
      w.RoomWalkableIffInterior(8, 20);
    }

    method AddLogMessage(m: Message)
      modifies this`log
      ensures log == AppendBounded(old(log), m)
    {
      log := log + [m];
      if |log| > LogCap {
        log := log[1..];
      }
    }

    /** The collision interaction: a greeting naming the NPC is logged. */
    method InteractWithNpc(npc: NPC)
      modifies this`log
      ensures log == AppendBounded(old(log), Interacted(npc.name))
    {
      AddLogMessage(Interacted(npc.name));
    }

    /** One movement attempt by (dx, dy). A blocked target only logs the
        refusal; a target holding an NPC triggers the interaction, the player
        stays and that NPC goes to the back of the collection; otherwise the
        player moves. */
    method TryMovePlayer(dx: int, dy: int) returns (moved: bool)
      requires Valid()
      modifies this`log, this`npcs, player`position
      ensures Valid()
      ensures var target := (old(player.position).0 + dx, old(player.position).1 + dy);
        && (!world.IsValidPosition(target.0, target.1) || !world.IsWalkable(target.0, target.1) ==>
              && !moved
              && player.position == old(player.position)
              && npcs == old(npcs)
              && log == AppendBounded(old(log), CantMove))
        && (world.IsWalkable(target.0, target.1) && FindNpcAt(old(npcs), target).Some? ==>
              var i := FindNpcAt(old(npcs), target).value;
              && !moved
              && player.position == old(player.position)
              && npcs == MoveToBack(old(npcs), i)
              && log == AppendBounded(old(log), Interacted(old(npcs)[i].name)))
        && (world.IsWalkable(target.0, target.1) && FindNpcAt(old(npcs), target).None? ==>
              && moved
              && player.position == target
              && npcs == old(npcs)
              && log == AppendBounded(old(log), Moved(target.0, target.1)))
      ensures multiset(npcs) == multiset(old(npcs))
      ensures old(Separated()) ==> Separated()
    {
      var newPos := (player.position.0 + dx, player.position.1 + dy);
      if !world.IsValidPosition(newPos.0, newPos.1) || !world.IsWalkable(newPos.0, newPos.1) {
        AddLogMessage(CantMove);
        return false;
      }
      var found := FindNpcAt(npcs, newPos);
      if found.Some? {
        var i := found.value;
        var npc := npcs[i];
        npcs := npcs[..i] + npcs[i + 1..];
        InteractWithNpc(npc);
        npcs := npcs + [npc];
        assert npcs == MoveToBack(old(npcs), i);
        if old(Separated()) {
          MoveToBackKeepsApart(old(npcs), i);
          forall k | 0 <= k < |npcs| ensures npcs[k].position != player.position {
            assert npcs[k] == old(npcs)[MoveToBackSource(k, i, |npcs|)];
          }
        }
        moved := false;
      } else {
        player.MoveTo(newPos);
        AddLogMessage(Moved(newPos.0, newPos.1));
        moved := true;
      }
    }
  }
}
