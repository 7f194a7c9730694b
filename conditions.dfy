/** Win/loss evaluation. Each game mode judges the state it is given; losing
    (the player is dead) always takes precedence over winning. */
module Conditions {
  import opened Items
  import State

  datatype GameStatus = Playing | Won | Lost

  /** What the evaluator reads from the game state: the player's health, the
      kinds of the carried items in pickup order, and the number of log entries. */
  datatype Snapshot = Snapshot(health: int, inventory: seq<ItemType>, logLength: nat)

  /** The snapshot's view of `State.Player.IsAlive`: health above zero
      (`LostIffDead` connects the two). */
  predicate IsAlive(s: Snapshot)
  {
    s.health > 0
  }

  /** The closed set of game modes with their parameters. */
  datatype Condition =
    | TreasureHunt
    | Survival(targetTurns: nat)
    | Collection(requiredItems: seq<(ItemType, nat)>)

  /** The number of carried items of kind `t`. */
  function Count(inventory: seq<ItemType>, t: ItemType): (n: nat)
    ensures n <= |inventory|
  {
    if inventory == [] then 0
    else (if inventory[0] == t then 1 else 0) + Count(inventory[1..], t)
  }

  /** Every (kind, quantity) requirement is met by the inventory. */
  predicate AllRequirementsMet(required: seq<(ItemType, nat)>, inventory: seq<ItemType>)
  {
    forall k :: 0 <= k < |required| ==> Count(inventory, required[k].0) >= required[k].1
  }

  /** Treasure hunt: won once any carried item is a treasure. */
  function TreasureHuntStatus(s: Snapshot): (r: GameStatus)
    ensures r == Lost <==> !IsAlive(s)
    ensures r == Won <==> IsAlive(s) && exists i :: 0 <= i < |s.inventory| && s.inventory[i] == Treasure
  {
    if !IsAlive(s) then Lost
    else if Treasure in s.inventory then Won
    else Playing
  }

  /** Survival: won once the log holds at least `targetTurns` entries. */
  function SurvivalStatus(targetTurns: nat, s: Snapshot): (r: GameStatus)
    ensures r == Lost <==> !IsAlive(s)
    ensures r == Won <==> IsAlive(s) && s.logLength >= targetTurns
  {
    if !IsAlive(s) then Lost
    else if s.logLength >= targetTurns then Won
    else Playing
  }

  /** Collection, as a specification: won when every requirement is met. */
  function CollectionStatus(required: seq<(ItemType, nat)>, s: Snapshot): GameStatus
  {
    if !IsAlive(s) then Lost
    else if AllRequirementsMet(required, s.inventory) then Won
    else Playing
  }

  /** The status under the given mode. Loss takes precedence and is the only
      way to lose: every mode reports Lost exactly when the player is dead,
      whatever the inventory and log. */
  function CheckStatus(c: Condition, s: Snapshot): (r: GameStatus)
    ensures r == Lost <==> !IsAlive(s)
  {
    match c
    case TreasureHunt => TreasureHuntStatus(s)
    case Survival(t) => SurvivalStatus(t, s)
    case Collection(req) => CollectionStatus(req, s)
  }

  /** Collection as the evaluator runs it: requirements are scanned in order
      and the first unmet one ends the scan with Playing. */
  method CheckCollection(required: seq<(ItemType, nat)>, s: Snapshot) returns (status: GameStatus)
    ensures status == Lost <==> !IsAlive(s)
    ensures status == Won <==> IsAlive(s) && AllRequirementsMet(required, s.inventory)
    ensures status == CollectionStatus(required, s)
  {
    if !IsAlive(s) {
      return Lost;
    }
    for k := 0 to |required|
      invariant forall j :: 0 <= j < k ==> Count(s.inventory, required[j].0) >= required[j].1
    {
      var (requiredType, requiredCount) := required[k];
      var collectedCount := Count(s.inventory, requiredType);
      if collectedCount < requiredCount {
        return Playing;
      }
    }
    return Won;
  }

  /** For a snapshot taken from an actual player, every mode reports Lost
      exactly when that player is not alive. */
  lemma LostIffDead<T>(c: Condition, p: State.Player<T>, inventory: seq<ItemType>, logLength: nat)
    ensures CheckStatus(c, Snapshot(p.health, inventory, logLength)) == Lost <==> !p.IsAlive()
  {
  }

  /** The log never holds more than `LogCap` entries, so a survival target
      beyond the cap can never be won. */
  lemma SurvivalBeyondCapUnwinnable(targetTurns: nat, s: Snapshot)
    requires s.logLength <= State.LogCap < targetTurns
    ensures SurvivalStatus(targetTurns, s) != Won
  {
  }

  /** The same, for the health and log of an actual game state. */
  lemma SurvivalBeyondCapUnwinnableInGame(g: State.GameState, targetTurns: nat, inventory: seq<ItemType>)
    requires g.Valid() && targetTurns > State.LogCap
    ensures SurvivalStatus(targetTurns, Snapshot(g.player.health, inventory, |g.log|)) != Won
  {
  }

  /** With no requirements every live player has won. */
  lemma CollectionWithoutRequirementsWins(s: Snapshot)
    requires IsAlive(s)
    ensures CollectionStatus([], s) == Won
  {
  }

  /** Counting distributes over concatenation. */
  lemma {:induction false} CountAppend(a: seq<ItemType>, b: seq<ItemType>, t: ItemType)
    ensures Count(a + b, t) == Count(a, t) + Count(b, t)
    decreases |a|
  {
    if a == [] {
      assert a + b == b;
    } else {
      assert (a + b)[1..] == a[1..] + b;
      CountAppend(a[1..], b, t);
    }
  }

  /** The count of a kind is its multiplicity: pickup order does not matter. */
  lemma {:induction false} CountIsMultiplicity(inventory: seq<ItemType>, t: ItemType)
    ensures Count(inventory, t) == multiset(inventory)[t]
    decreases |inventory|
  {
    if inventory != [] {
      assert inventory == [inventory[0]] + inventory[1..];
      CountIsMultiplicity(inventory[1..], t);
    }
  }

  /** Collecting more never loses a collection win. */
  lemma CollectionMonotone(required: seq<(ItemType, nat)>, s: Snapshot, extra: seq<ItemType>)
    requires CollectionStatus(required, s) == Won
    ensures CollectionStatus(required, s.(inventory := s.inventory + extra)) == Won
  {
    forall k | 0 <= k < |required|
      ensures Count(s.inventory + extra, required[k].0) >= required[k].1
    {
      CountAppend(s.inventory, extra, required[k].0);
    }
  }

  /** The collection verdict depends only on which items are carried, not on
      the order they were picked up in. */
  lemma CollectionIgnoresOrder(required: seq<(ItemType, nat)>, s: Snapshot, inventory: seq<ItemType>)
    requires multiset(inventory) == multiset(s.inventory)
    ensures CollectionStatus(required, s.(inventory := inventory)) == CollectionStatus(required, s)
  {
    forall t: ItemType ensures Count(inventory, t) == Count(s.inventory, t) {
      CountIsMultiplicity(inventory, t);
      CountIsMultiplicity(s.inventory, t);
    }
  }

  /** Three gems, two scrolls and a potion are required: with two gems the
      game goes on. */
  lemma CollectionExamplePlaying(health: int, logLength: nat)
    requires health > 0
    ensures CollectionStatus([(Gem, 3), (Scroll, 2), (Potion, 1)],
                             Snapshot(health, [Gem, Gem, Scroll, Scroll, Potion], logLength)) == Playing
  {
    var required := [(Gem, 3), (Scroll, 2), (Potion, 1)];
    var few := [Gem, Gem, Scroll, Scroll, Potion];
    assert Count(few, Gem) == 2 by {
      assert few[1..][1..] == [Scroll, Scroll, Potion];
      assert Count([Scroll, Scroll, Potion], Gem) == 0;
    }
    assert Count(few, required[0].0) < required[0].1;
  }

  /** The item counts of the winning inventory of `CollectionExampleWon`. */
  lemma ExampleCounts()
    ensures var enough := [Gem, Scroll, Gem, Potion, Scroll, Gem];
      Count(enough, Gem) == 3 && Count(enough, Scroll) == 2 && Count(enough, Potion) == 1
  {
    var enough := [Gem, Scroll, Gem, Potion, Scroll, Gem];
    var s1, s2, s3 := [Gem], [Scroll, Gem], [Potion, Scroll, Gem];
    var s4, s5 := [Gem, Potion, Scroll, Gem], [Scroll, Gem, Potion, Scroll, Gem];
    assert s1[1..] == [] && s2[1..] == s1 && s3[1..] == s2;
    assert s4[1..] == s3 && s5[1..] == s4 && enough[1..] == s5;
    assert Count(s1, Gem) == 1 && Count(s1, Scroll) == 0 && Count(s1, Potion) == 0;
    assert Count(s2, Gem) == 1 && Count(s2, Scroll) == 1 && Count(s2, Potion) == 0;
    assert Count(s3, Gem) == 1 && Count(s3, Scroll) == 1 && Count(s3, Potion) == 1;
    assert Count(s4, Gem) == 2 && Count(s4, Scroll) == 1 && Count(s4, Potion) == 1;
    assert Count(s5, Gem) == 2 && Count(s5, Scroll) == 2 && Count(s5, Potion) == 1;
  }

  /** With three gems, two scrolls and a potion, in any order, the game is won. */
  lemma CollectionExampleWon(health: int, logLength: nat)
    requires health > 0
    ensures CollectionStatus([(Gem, 3), (Scroll, 2), (Potion, 1)],
                             Snapshot(health, [Gem, Scroll, Gem, Potion, Scroll, Gem], logLength)) == Won
  {
    var required := [(Gem, 3), (Scroll, 2), (Potion, 1)];
    var enough := [Gem, Scroll, Gem, Potion, Scroll, Gem];
    ExampleCounts();
    forall k | 0 <= k < |required| ensures Count(enough, required[k].0) >= required[k].1 {
      assert k == 0 || k == 1 || k == 2;
    }
  }
}
