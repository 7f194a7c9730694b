/** Non-player characters: their closed set of kinds, the glyph and colour each
    kind is drawn with, and the result of an interaction. */
module Npcs {
  import Items

  datatype NPCType = Goblin | Orc | Skeleton | Merchant | Guard

  /** The datatype constructor `NPC(p, t, n)` is the source's field-copying
      `NPC::new`. */
  datatype NPC = NPC(position: (int, int), npcType: NPCType, name: string)
  {
    function DisplayChar(): (c: char)
      ensures c in {'g', 'O', 'S', 'M', 'G'}
    {
      match npcType
      case Goblin => 'g'
      case Orc => 'O'
      case Skeleton => 'S'
      case Merchant => 'M'
      case Guard => 'G'
    }

    function DisplayInfo(): (r: (char, Items.Rgb))
      ensures r.0 == DisplayChar()
    {
      var colour: Items.Rgb :=
        match npcType
        case Goblin => (0, 255, 0)
        case Orc => (180, 50, 50)
        case Skeleton => (200, 200, 200)
        case Merchant => (100, 150, 255)
        case Guard => (70, 70, 150);
      (DisplayChar(), colour)
    }
  }

  /** What an interaction yields: nothing, the NPC to keep, or an item. */
  datatype InteractionResult = Nothing | KeepNpc(npc: NPC) | YieldItem(item: Items.Item)

  /** Distinct kinds are drawn with distinct glyphs. */
  lemma GlyphDeterminesType(a: NPC, b: NPC)
    ensures a.DisplayChar() == b.DisplayChar() <==> a.npcType == b.npcType
  {
  }

  /** Distinct kinds are drawn in distinct colours. */
  lemma ColourDeterminesType(a: NPC, b: NPC)
    ensures a.DisplayInfo().1 == b.DisplayInfo().1 <==> a.npcType == b.npcType
  {
  }
}
