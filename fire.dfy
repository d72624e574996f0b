/**
 * `place_banana` of src/game/fire.rs: in the cave, pressing E at the fire
 * burns the banana, or, without one, lets the fire say something.
 */
module Fire {
  import opened Common
  import opened Items
  import opened ItemLists
  import opened Movement
  import opened Levels
  import opened Inventories

  /**
   * One frame of `place_banana` for the one player and the one fire.
   * `ePressed` says whether E was pressed this frame, `atFire` whether the
   * player's box meets the fire's. The result is the dialogue node started,
   * if any.
   */
  method PlaceBanana(frozen: ActionsFrozen, inventory: Inventory, level: Level, ePressed: bool, atFire: bool)
    returns (node: Option<string>)
    modifies frozen, inventory, level
    ensures |inventory.items| + |level.items| == |old(inventory.items)| + |old(level.items)|
    ensures !ePressed || old(frozen.IsFrozen()) || !atFire ==>
      && node == None
      && inventory.items == old(inventory.items) && level.items == old(level.items)
      && frozen.freezeCount == old(frozen.freezeCount)
    ensures ePressed && !old(frozen.IsFrozen()) && atFire && Banana in old(inventory.items) ==>
      && node == Some("DroppedBanana")
      && inventory.items == RemoveFirst(old(inventory.items), Banana)
      && level.items == old(level.items) + [BurntBanana]
      && frozen.freezeCount == old(frozen.freezeCount) + 1
    ensures ePressed && !old(frozen.IsFrozen()) && atFire && Banana !in old(inventory.items) ==>
      && inventory.items == old(inventory.items) && level.items == old(level.items)
      && (BurntBanana !in old(level.items) ==>
            node == Some("Fire") && frozen.freezeCount == old(frozen.freezeCount) + 1)
      && (BurntBanana in old(level.items) ==>
            node == None && frozen.freezeCount == old(frozen.freezeCount))
  {
    node := None;
    if !ePressed {
      return;
    }
    if frozen.IsFrozen() {
      return;
    }
    if atFire {
      var found := IndexOf(inventory.items, Banana);
      if found.None? {
        if BurntBanana !in level.items {
          node := Some("Fire");
          frozen.Freeze();
        }
        return;
      }
      RemoveFirstCounts(inventory.items, Banana);
      inventory.items := RemoveAt(inventory.items, found.value);
      level.items := level.items + [BurntBanana];
      node := Some("DroppedBanana");
      frozen.Freeze();
    }
  }

  /**
   * Burning the banana keeps every item in at most one place, once, as
   * long as no burnt banana existed before.
   */
  lemma BurnKeepsExclusive(inventory: seq<Item>, level: seq<Item>)
    requires Exclusive(inventory, level) && Banana in inventory
    requires BurntBanana !in inventory && BurntBanana !in level
    ensures Exclusive(RemoveFirst(inventory, Banana), level + [BurntBanana])
  {
    TransformKeepsExclusive(inventory, level, Banana, BurntBanana);
  }
}
