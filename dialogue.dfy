/**
 * The dialogue side of src/dialogue.rs: the bodies of the commands the
 * dialogue scripts call, and the freezing that brackets every dialogue.
 * The dialogue runner itself (script execution, its variable storage) is
 * not part of this model.
 */
module Dialogue {
  import opened Common
  import opened Items
  import opened ItemLists
  import opened Movement
  import opened Levels
  import opened Inventories

  /**
   * The list change shared by `inventory_convert` and `level_convert`: the
   * first item printed as `from` is removed and `Item::from(to)` is pushed.
   * An absent `from` panics in the `unwrap` before anything changes; an
   * unknown `to` panics in `Item::from` after the removal.
   */
  function Convert(items: seq<Item>, from: string, to: string): (r: (seq<Item>, Status))
    ensures r.1.Ok? <==> Parse(from).Some? && Parse(from).value in items && Parse(to).Some?
    ensures r.1.Ok? ==> r.0 == RemoveFirst(items, Parse(from).value) + [Parse(to).value]
    ensures r.1.Panic? && (Parse(from).None? || Parse(from).value !in items) ==> r.0 == items
  {
    IndexOfNameIsIndexOfParsed(items, from);
    match IndexOfName(items, from)
    case None => (items, Panic("called `Option::unwrap()` on a `None` value"))
    case Some(i) =>
      var rest := RemoveAt(items, i);
      match Parse(to)
      case None => (rest, Panic("unknown item " + to))
      case Some(item) => (rest + [item], Ok)
  }

  /**
   * A successful conversion keeps the length, swaps one `from` for one `to`
   * in the multiset, puts `to` last, and leaves the other items in their
   * order.
   */
  lemma ConvertSwapsOne(items: seq<Item>, from: string, to: string, p: seq<Item>, q: seq<Item>)
    requires Parse(from).Some? && Parse(to).Some?
    requires items == p + [Parse(from).value] + q && Parse(from).value !in p
    ensures Convert(items, from, to).1.Ok?
    ensures |Convert(items, from, to).0| == |items|
    ensures multiset(Convert(items, from, to).0)
         == multiset(items) - multiset{Parse(from).value} + multiset{Parse(to).value}
    ensures Convert(items, from, to).0 == p + q + [Parse(to).value]
  {
    RemoveFirstCounts(items, Parse(from).value);
    RemoveFirstOfSplit(p, Parse(from).value, q);
  }

  /** `inventory_convert(from, to)` on the inventory. */
  method InventoryConvert(inventory: Inventory, from: string, to: string) returns (status: Status)
    modifies inventory
    ensures (inventory.items, status) == Convert(old(inventory.items), from, to)
  {
    IndexOfNameIsIndexOfParsed(inventory.items, from);
    var found := IndexOfName(inventory.items, from);
    if found.None? {
      return Panic("called `Option::unwrap()` on a `None` value");
    }
    inventory.items := RemoveAt(inventory.items, found.value);
    var item := Parse(to);
    if item.None? {
      return Panic("unknown item " + to);
    }
    inventory.items := inventory.items + [item.value];
    status := Ok;
  }

  /** `level_convert(from, to)`: the same change on the level; the inventory is not touched. */
  method LevelConvert(level: Level, from: string, to: string) returns (status: Status)
    modifies level
    ensures (level.items, status) == Convert(old(level.items), from, to)
  {
    IndexOfNameIsIndexOfParsed(level.items, from);
    var found := IndexOfName(level.items, from);
    if found.None? {
      return Panic("called `Option::unwrap()` on a `None` value");
    }
    level.items := RemoveAt(level.items, found.value);
    var item := Parse(to);
    if item.None? {
      return Panic("unknown item " + to);
    }
    level.items := level.items + [item.value];
    status := Ok;
  }

  /**
   * `drop(item)`: the first inventory item printed as `name` moves to the
   * end of the level; without one the `unwrap` panics and nothing changes.
   */
  method Drop(inventory: Inventory, level: Level, name: string) returns (status: Status)
    modifies inventory, level
    ensures status.Ok? <==> Parse(name).Some? && Parse(name).value in old(inventory.items)
    ensures status.Panic? ==> inventory.items == old(inventory.items) && level.items == old(level.items)
    ensures status.Ok? ==>
      && inventory.items == RemoveFirst(old(inventory.items), Parse(name).value)
      && level.items == old(level.items) + [Parse(name).value]
      && multiset(inventory.items) + multiset(level.items) == multiset(old(inventory.items)) + multiset(old(level.items))
      && |inventory.items| == |old(inventory.items)| - 1
  {
    IndexOfNameIsIndexOfParsed(inventory.items, name);
    var found := IndexOfName(inventory.items, name);
    if found.None? {
      return Panic("called `Option::unwrap()` on a `None` value");
    }
    var item := inventory.items[found.value];
    MovePreservesTotal(inventory.items, level.items, item);
    inventory.items := RemoveAt(inventory.items, found.value);
    level.items := level.items + [item];
    status := Ok;
  }

  /**
   * `player_run`'s direction: "left" runs towards negative x, "right"
   * towards positive x, anything else panics.
   */
  function RunDirection(direction: string): (r: Option<int>)
    ensures r.Some? <==> direction == "left" || direction == "right"
    ensures r.Some? ==> (r.value < 0 <==> direction == "left") && (r.value == -1 || r.value == 1)
  {
    if direction == "left" then Some(-1)
    else if direction == "right" then Some(1)
    else None
  }

  /** The sounds a dialogue can play. */
  datatype Sound = VineBoom | UhOh | TrophyWife | WifeHm

  /** The name a script uses for each sound. */
  function SoundName(sound: Sound): (name: string)
  {
    match sound
    case VineBoom => "vine_boom"
    case UhOh => "uh_oh"
    case TrophyWife => "trophy_wife"
    case WifeHm => "wife_hm"
  }

  /** `play_sound`'s name match: the four known names, anything else panics. */
  function ParseSound(name: string): (r: Option<Sound>)
    ensures r.Some? ==> SoundName(r.value) == name
    ensures r.None? ==> forall s :: SoundName(s) != name
  {
    if name == "vine_boom" then Some(VineBoom)
    else if name == "uh_oh" then Some(UhOh)
    else if name == "trophy_wife" then Some(TrophyWife)
    else if name == "wife_hm" then Some(WifeHm)
    else None
  }

  /** Every sound is played under its own name. */
  lemma ParseSoundName(sound: Sound)
    ensures ParseSound(SoundName(sound)) == Some(sound)
  {
    match sound
    case VineBoom =>
    case UhOh =>
    case TrophyWife =>
    case WifeHm =>
  }

  /**
   * `spawn_dialogue_runner` (on entering Gameplay): start the "Intro" node
   * and freeze the game once for it.
   */
  method SpawnDialogueRunner(frozen: ActionsFrozen) returns (node: string)
    modifies frozen
    ensures node == "Intro"
    ensures frozen.freezeCount == old(frozen.freezeCount) + 1 && frozen.IsFrozen()
  {
    node := "Intro";
    frozen.Freeze();
  }

  /**
   * `unfreeze_after_dialog`: one unfreeze for each dialogue-complete event
   * of this frame; each needs a freeze to release.
   */
  method UnfreezeAfterDialog(frozen: ActionsFrozen, events: nat)
    requires frozen.freezeCount >= events
    modifies frozen
    ensures frozen.freezeCount == old(frozen.freezeCount) - events
    ensures frozen.IsFrozen() <==> old(frozen.freezeCount) > events
  {
    for i := 0 to events
      invariant frozen.freezeCount == old(frozen.freezeCount) - i
    {
      frozen.Unfreeze();
    }
  }
}
