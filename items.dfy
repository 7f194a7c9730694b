/** Items that can lie in the world or be carried: their closed set of kinds,
    the glyph and colour each kind is drawn with, and the result of using one. */
module Items {
  import opened Options

  /** An 8-bit colour channel. */
  type Byte = x: int | 0 <= x < 256

  type Rgb = (Byte, Byte, Byte)

  const Gold: Rgb := (255, 215, 0)

  datatype ItemType = Key | TreasureChest | Treasure | Gem | Scroll | Potion

  /** An item is immutable value data (its label is `displayName`, since
      `label` is a Dafny keyword); the datatype constructor `Item(t, n, d)`
      is the source's field-copying `Item::new`. */
  datatype Item = Item(itemType: ItemType, displayName: string, description: string)
  {
    /** The character the item is drawn with. */
    function DisplayChar(): (c: char)
      ensures c in {'-', '=', '$', '*', '?', '!'}
    {
      match itemType
      case Key => '-'
      case TreasureChest => '='
      case Treasure => '$'
      case Gem => '*'
      case Scroll => '?'
      case Potion => '!'
    }

    /** The glyph together with its colour; only keys and treasure are gold. */
    function DisplayInfo(): (r: (char, Rgb))
      ensures r.0 == DisplayChar()
      ensures r.1 == Gold <==> itemType == Key || itemType == Treasure
    {
      var colour: Rgb :=
        match itemType
        case Key => (255, 215, 0)
        case TreasureChest => (139, 69, 19)
        case Treasure => (255, 215, 0)
        case Gem => (255, 20, 147)
        case Scroll => (245, 245, 220)
        case Potion => (138, 43, 226);
      (DisplayChar(), colour)
    }
  }

  /** What using an item hands back to the caller: an item to put back in the
      inventory, if any, and the items to drop at the player's feet. */
  datatype ItemUseResult = ItemUseResult(returnedToInventory: Option<Item>, droppedOnGround: seq<Item>)

  /** The glyph determines the kind: two items look alike exactly when they are
      of the same kind. */
  lemma GlyphDeterminesType(a: Item, b: Item)
    ensures a.DisplayChar() == b.DisplayChar() <==> a.itemType == b.itemType
  {
  }

  /** Two items share a colour exactly when they are of the same kind or are a
      key and a treasure, both gold. */
  lemma ColourSharedOnlyByGold(a: Item, b: Item)
    ensures a.DisplayInfo().1 == b.DisplayInfo().1 <==>
      a.itemType == b.itemType || (a.DisplayInfo().1 == Gold && b.DisplayInfo().1 == Gold)
  {
  }
}
