/** The optional value used for lookups that can miss (an out-of-bounds tile,
    no NPC on a cell, an item use that returns nothing to the inventory). */
module Options {

  datatype Option<+T> = None | Some(value: T)
}
