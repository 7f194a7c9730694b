/** The earlier game state, from before NPCs existed: the same player and
    world, the bounded log, and a movement step without collisions. */
module Legacy {
  import State

  class GameState {
    const player: State.Player<string>
    const world: State.GameWorld
    var log: seq<State.Message>
    var gameOver: bool

    /** The world grid has its declared size and the log is within its cap. */
    ghost predicate Valid()
      reads this, world
    {
      world.Valid() && |log| <= State.LogCap
    }

    /** A new game: the default player on a walkable tile of the default
        50 by 30 room, and three greeting messages. */
    constructor ()
      ensures Valid() && world.IsRoom()
      ensures fresh(player) && fresh(world) && fresh(world.tiles)
      ensures player.position == (10, 15) && player.health == 100 && player.maxHealth == 100
      ensures player.level == 1 && player.experience == 0 && player.inventory == []
      ensures world.width == 50 && world.height == 30 && world.currentFloor == 1
      ensures log == [State.Welcome, State.MoveHint, State.ExploreHint] && !gameOver
      ensures world.IsWalkable(player.position.0, player.position.1)
    {
      var p := new State.Player<string>.Default();
      var w := new State.GameWorld.Default();
      player, world := p, w;
      log := [State.Welcome, State.MoveHint, State.ExploreHint];
      gameOver := false;
      new;
      w.RoomWalkableIffInterior(10, 15);
    }

    method AddLogMessage(m: State.Message)
      modifies this`log
      ensures log == State.AppendBounded(old(log), m)
    {
      log := log + [m];
      if |log| > State.LogCap {
        log := log[1..];
      }
    }

    /** One movement attempt by (dx, dy): the player moves exactly when the
        target is in bounds and walkable, and either move or refusal is logged. */
    method TryMovePlayer(dx: int, dy: int) returns (moved: bool)
      requires Valid()
      modifies this`log, player`position
      ensures Valid()
      ensures var target := (old(player.position).0 + dx, old(player.position).1 + dy);
        && (moved <==> world.IsValidPosition(target.0, target.1) && world.IsWalkable(target.0, target.1))
        && player.position == (if moved then target else old(player.position))
        && log == State.AppendBounded(old(log), if moved then State.Moved(target.0, target.1) else State.CantMove)
    {
      var newPos := (player.position.0 + dx, player.position.1 + dy);
      if world.IsValidPosition(newPos.0, newPos.1) && world.IsWalkable(newPos.0, newPos.1) {
        player.MoveTo(newPos);
        AddLogMessage(State.Moved(newPos.0, newPos.1));
        moved := true;
      } else {
        AddLogMessage(State.CantMove);
        moved := false;
      }
    }
  }
}
