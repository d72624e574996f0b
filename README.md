# Fishstick jam game: verified model of the gameplay core

This project models the gameplay rules of a small 2D adventure game built
on the Bevy engine. The player walks between a cave and an outside area and
picks up items (papyrus, a knife, a banana, paper). Dialogue scripts turn
papyrus into strips and woven papyrus. Closing a paper that was written on
turns it into a written paper. Burning the banana in the cave's fire turns
it into a burnt banana.

The model is written in Dafny. Its parts:

- **Movement** (`movement.dfy`): the `ActionsFrozen` counter. Every input
  handler checks it except typing on the paper and closing it, which serve
  the frozen paper view. Every scene freezes it once, and every scene end
  unfreezes it once. `Run` replays a sequence of freezes and unfreezes;
  lemmas show that the game stays frozen until every freeze is released.
- **Items** (`items.dfy`): the `Item` enum, its printed names, and the
  `From<&str>` parse. The parse and the names are inverse to each other.
- **ItemLists** (`item_lists.dfy`): the list operations the systems use:
  `position`, `remove`, and search by printed name. Lemmas cover multisets,
  lengths, and exclusivity, meaning no item lies both in the world and in
  the inventory.
- **Timers** (`timers.dfy`): the engine's repeating timer, as far as the
  animation uses it.
- **Animations** (`animation.dfy`): the `Animation` component and the
  systems that drive it.
- **Levels** (`level.dfy`): the `Level` resource, and the per-area systems
  that spawn or despawn item sprites to match it. Suppose no item of the
  area's table has more than one sprite beforehand. Then a run leaves
  exactly one sprite per present item and none per absent one, and a
  second run issues no commands.
- **Inventories** (`inventory.dfy`): `Inventory`, `pick_up`,
  `interact_item`, and the paper (`open_paper`, `update_paper_text`,
  `close_paper`). For single-byte keys, typing on the paper keeps it
  within four lines of six bytes each.
- **Dialogue** (`dialogue.dfy`): the bodies of the commands that the
  dialogue scripts call, plus the freeze and unfreeze around dialogues.
- **Fire** (`fire.dfy`): `place_banana`.

Rust panics are handled in three ways:

- The list and command code (`drop`, the two converts, `close_paper`)
  returns a `Status.Panic` result from an `unwrap` or an `Item::from`. The
  result carries the state reached at the panic point.
- The parses (`Item::from`, `play_sound`, `player_run`) return `None`,
  and `spawn_item` gives `None` where it reaches `todo!`.
- A few panics are preconditions of the operation instead:
  - the `usize` underflow of `unfreeze`;
  - `animations[0]` on an empty list in `Animation::new`;
  - the `unwrap` of the state lookup in `update_state`;
  - the `% 0` on an animation without frames in `update_timer` and
    `update_state`.

The `expect` calls on the single dialogue runner and the single player are
left out.

## Model

| member | source | states |
|---|---|---|
| Movement.ActionsFrozen.constructor | src/game/movement.rs:115-119 | the default counter is zero and not frozen |
| Movement.ActionsFrozen.Reset | src/game/movement.rs:37-39 | re-inserting the default on entering Difficulty clears every freeze |
| Movement.ActionsFrozen.Freeze | src/game/movement.rs:121-123 | the count rises by one and the game is frozen |
| Movement.ActionsFrozen.Unfreeze | src/game/movement.rs:124-126 | needs a held freeze (usize underflow); the count falls by one, and the game is still frozen iff more than one freeze was held |
| Movement.ActionsFrozen.IsFrozen | src/game/movement.rs:127-129 | frozen exactly while at least one freeze is held |
| Movement.ActionsFrozen.Perform | src/game/movement.rs:120-126 | performing a sequence of calls on the counter leaves it where `Run` says, so the lemmas about `Run` hold for the counter |
| Movement.Step | src/game/movement.rs:121-126 | a freeze always succeeds with count+1; an unfreeze fails exactly at zero and otherwise gives count-1 |
| Movement.Repeat | src/game/movement.rs:121-126 | n copies of one call |
| Movement.RunAppend | src/game/movement.rs:121-126 | running two call sequences one after the other is running their concatenation |
| Movement.FreezeUnfreezeRestores | src/game/movement.rs:121-126 | a freeze directly followed by an unfreeze leaves the counter as before, whatever surrounds them |
| Movement.RunFreezes | src/game/movement.rs:121-123 | n freezes raise the count by n |
| Movement.RunUnfreezes | src/game/movement.rs:124-126 | k unfreezes lower the count by k and underflow exactly when k exceeds it |
| Movement.FrozenUntilAllUnfrozen | src/game/movement.rs:121-129 | after n freezes the game stays frozen through n-1 unfreezes, the n-th releases it, and one more underflows |
| Items.Name | src/game/inventory.rs:46-56 | the derived `Display`: each variant prints as its own identifier (its properties are stated by `NameInjective` and `ParseName`) |
| Items.Parse | src/game/inventory.rs:58-72 | a parsed name is the printed name of the result; an unknown name is nobody's printed name (the panic) |
| Items.NameInjective | src/game/inventory.rs:46-56 | two items print the same iff they are equal |
| Items.ParseName | src/game/inventory.rs:46-72 | `Item::from(item.to_string())` gives the item back |
| Items.ParseExactlyNames | src/game/inventory.rs:58-72 | a name parses to an item iff it is that item's printed name |
| ItemLists.IndexOf | src/game/inventory.rs:332 | `position` finds nothing iff the item is absent; otherwise it finds the item's first occurrence |
| ItemLists.IndexOfName | src/dialogue.rs:63-67 | a found index is in range and its item prints as the name |
| ItemLists.IndexOfNameIsIndexOfParsed | src/dialogue.rs:63-67 | searching by printed name is searching for the parsed item, and finds nothing for an unknown name |
| ItemLists.RemoveAt | src/game/inventory.rs:333 | `Vec::remove` shortens by one, drops one copy of the element from the multiset, and shifts the later elements down |
| ItemLists.RemoveFirst | src/game/inventory.rs:111-113 | `position` then `remove`: the first occurrence goes, nothing when absent (stated by `RemoveFirstCounts` and `RemoveFirstOfSplit`) |
| ItemLists.RemoveFirstCounts | src/game/inventory.rs:111-113 | removing the first occurrence drops exactly one copy when there is one and leaves the list alone otherwise |
| ItemLists.IndexOfAfterPrefix | src/game/inventory.rs:111 | `position` stops at the first occurrence whatever follows it |
| ItemLists.RemoveFirstOfSplit | src/game/inventory.rs:111-113 | removing the first occurrence keeps the rest in order |
| ItemLists.RemoveEachMultiset | src/game/inventory.rs:100-113 | removing a list of items one by one subtracts their multiset |
| ItemLists.MoveKeepsExclusive | src/game/inventory.rs:109-113 | moving an item from one list to the other keeps every item in at most one place |
| ItemLists.ReplaceKeepsExclusive | src/game/inventory.rs:330-334 | replacing an item by one held nowhere keeps exclusivity |
| ItemLists.MovePreservesTotal | src/dialogue.rs:107-113 | moving an item between lists preserves the combined multiset and the total length |
| ItemLists.TransformKeepsExclusive | src/game/fire.rs:144-145 | taking one item from a list and adding a new kind held nowhere to the other list keeps exclusivity |
| Timers.NewRepeating | src/game/animation.rs:115 | a new timer is unfinished, with nothing elapsed |
| Timers.Tick | src/game/animation.rs:123-125 | a tick finishes the timer iff the elapsed time reaches the duration, and keeps the remainder after finishing |
| Timers.Remaining | src/game/animation.rs:144 | the elapsed time plus the remaining time is the duration |
| Timers.TickRemaining | src/game/animation.rs:142-144 | ticking a fresh period by its remaining time finishes it with nothing left over |
| Timers.TickShort | src/game/animation.rs:123-127 | a tick shorter than the remaining time does not finish the timer and reduces the remaining time by the tick |
| Animations.FindState | src/game/animation.rs:134-138 | `position` finds nothing iff no animation shows the state; otherwise it finds the first one |
| Animations.Animation.constructor | src/game/animation.rs:113-120 | needs a non-empty list; starts on animation 0, frame 0, with a fresh timer for its interval |
| Animations.Animation.UpdateTimer | src/game/animation.rs:123-129 | the timer is ticked; the frame advances modulo the frame count exactly when the tick finished it |
| Animations.Animation.UpdateState | src/game/animation.rs:132-146 | afterwards the state shown is the one asked for; a change selects the first animation for the state, restarts its timer finished, and moves to frame 1 modulo the frame count; no change leaves everything as it was |
| Animations.Animation.Changed | src/game/animation.rs:148-151 | the animation changed this tick exactly when the last tick finished the timer |
| Animations.Animation.State | src/game/animation.rs:153-155 | the state of the current animation |
| Animations.Animation.AtlasIndex | src/game/animation.rs:158-160 | the atlas index lies within the current animation's run of frames |
| Animations.MovementState | src/game/animation.rs:40-44 | idling iff the intent is zero |
| Animations.UpdateAnimationMovement | src/game/animation.rs:31-47 | afterwards the animation is idling iff the intent is zero; the same state leaves timer, frame and animation alone, and a new one selects the first animation for it, restarts its timer finished and moves to frame 1 modulo the frame count |
| Animations.UpdateAnimationAtlas | src/game/animation.rs:57-63 | the atlas index follows the animation exactly when it changed |
| Animations.TriggerStepSound | src/game/animation.rs:65-74 | a step sounds iff walking, just changed, on frame 2 or 5, which needs a walk of at least three frames |
| Levels.Level.constructor | src/game/level.rs:176-182 | a new level holds the default items: the papyrus, the knife and the banana |
| Levels.Table | src/game/level.rs:33-40 | each area's table lists no item twice, and every listed item has a sprite |
| Levels.SpriteFor | src/game/level.rs:418-426 | every item has a sprite except the papyrus strips and the written paper, which reach `todo!` |
| Levels.DefaultItemsPlaced | src/game/level.rs:112-117 | every item of the default level is placed by exactly one area |
| Levels.ItemCommands | src/game/level.rs:41-57 | one table item gets a command iff its sprite's presence disagrees with the level |
| Levels.Reconcile | src/game/level.rs:142-165 | the loop issues the commands of a run over the area's table, in table order |
| Levels.ApplyAppend | src/game/level.rs:44-55 | applying two command lists one after the other is applying their concatenation |
| Levels.ReconcileTouchesOnlyTable | src/game/level.rs:67-92 | a run only names items of its table |
| Levels.ReconcileCommandsFor | src/game/level.rs:75-91 | a table item is spawned iff it is in the level without a sprite, and despawned iff it has a sprite but is not in the level |
| Levels.ReconcileEstablishes | src/game/level.rs:112-134 | provided no table item has more than one sprite beforehand: after the commands apply, each table item has one sprite if it is in the level and none otherwise; other sprites are untouched |
| Levels.ReconcileQuiet | src/game/level.rs:118-133 | when every table item's presence matches the level, a run issues nothing |
| Levels.ReconcileIdempotent | src/game/level.rs:107-138 | provided no table item has more than one sprite beforehand: a second run with the level unchanged issues no command |
| Inventories.Inventory.constructor | src/game/inventory.rs:41-43 | a new inventory is empty |
| Inventories.PickUp | src/game/inventory.rs:80-140 | frozen, or E not pressed: nothing changes and no node starts; otherwise every overlapping item is appended to the inventory and removed once from the level, and each paper starts a "CollectedPaper" node and freezes once |
| Inventories.PickUpKeepsExclusive | src/game/inventory.rs:109-113 | picking up an item of the level keeps every item in at most one place |
| Inventories.InteractItem | src/game/inventory.rs:177-200 | frozen: ignored; the paper opens the paper view; any other item starts its own dialogue node and freezes once |
| Inventories.PaperScene.constructor | src/game/inventory.rs:205-209 | no paper or paper text exists at first |
| Inventories.OpenPaper | src/game/inventory.rs:211-249 | frozen: nothing; otherwise one paper and one empty text appear and the game freezes once |
| Inventories.TypeCharacter | src/game/inventory.rs:278-299 | a full last line with room opens exactly one new line, and every earlier line only grows |
| Inventories.TypeAll | src/game/inventory.rs:272-303 | the paper text never loses its last section |
| Inventories.TypeCharacterOpensLine | src/game/inventory.rs:282-298 | a full last line with room below gets a newline, and the key becomes the new last line |
| Inventories.TypeCharacterFits | src/game/inventory.rs:295-298 | a last line under six bytes gets the key's bytes at its end |
| Inventories.TypeCharacterAppends | src/game/inventory.rs:278-299 | the whole text gains a newline when a line is opened, then the key's bytes exactly when the last line has room, and nothing else; with no room the paper is unchanged |
| Inventories.TypeAllExtends | src/game/inventory.rs:272-303 | typed text is never taken back: the old text stays the beginning of the new |
| Inventories.TypeAllFromEmpty | src/game/inventory.rs:272-303 | on the empty paper the first line stays empty until a key press types a byte, and holds text from then on |
| Inventories.TypedPaperIsWritten | src/game/inventory.rs:319-325 | the typed paper counts as written exactly when some key press typed a byte |
| Inventories.EmptyPaperWrapped | src/game/inventory.rs:235-236 | the empty text is within the paper's bounds |
| Inventories.TypeCharacterKeepsWrapped | src/game/inventory.rs:278-299 | typing one key keeps at most four lines, every finished line full and ended by a newline, and the last line short |
| Inventories.TypeAllKeepsWrapped | src/game/inventory.rs:272-303 | any run of key events keeps the text within those bounds |
| Inventories.TypeAllBoundsSections | src/game/inventory.rs:278-294 | the paper never holds more than four lines |
| Inventories.UpdatePaperText | src/game/inventory.rs:251-304 | without the learned pen or a single paper text nothing changes; otherwise every key press of a character is typed in order |
| Inventories.Written | src/game/inventory.rs:319-325 | some paper text has something in its first section |
| Inventories.ClosePaper | src/game/inventory.rs:306-352 | every paper closes, each unfreezing once; if something was written, the first paper becomes a written paper at the end, or `unwrap` panics without one |
| Dialogue.Convert | src/dialogue.rs:56-97 | succeeds iff `from` names an item held and `to` names an item; then the first `from` is removed and `to` appended; an absent `from` panics before any change |
| Dialogue.ConvertSwapsOne | src/dialogue.rs:63-69 | converting a held item into a known one succeeds, keeps the length, swaps one copy of `from` for one of `to`, and keeps the other items in order |
| Dialogue.InventoryConvert | src/dialogue.rs:56-87 | the inventory and the outcome are those of `Convert` |
| Dialogue.LevelConvert | src/dialogue.rs:89-97 | the level and the outcome are those of `Convert` |
| Dialogue.Drop | src/dialogue.rs:99-130 | succeeds iff the name is an item held; then it moves from the inventory to the end of the level, preserving the combined multiset; otherwise it panics with nothing changed |
| Dialogue.RunDirection | src/dialogue.rs:132-147 | only "left" and "right" are accepted, as -1 and +1 |
| Dialogue.ParseSound | src/dialogue.rs:157-173 | a known name plays the sound of that name; any other panics |
| Dialogue.ParseSoundName | src/dialogue.rs:157-164 | every sound is reachable under its own name |
| Dialogue.SpawnDialogueRunner | src/dialogue.rs:175-177 | the "Intro" node starts and the game freezes once |
| Dialogue.UnfreezeAfterDialog | src/dialogue.rs:180-187 | one unfreeze per completed dialogue; still frozen iff more freezes were held than dialogues ended |
| Fire.PlaceBanana | src/game/fire.rs:104-164 | without E, while frozen or away from the fire nothing happens; a held banana burns onto the level and starts "DroppedBanana"; without one, "Fire" starts unless a burnt banana lies in the level; totals are kept |
| Fire.BurnKeepsExclusive | src/game/fire.rs:136-145 | burning the banana keeps every item in at most one place |

## Left out

- Positions, bounding boxes and collision tests use floating point. They
  are left out. Whether the player overlaps an item or the fire, and
  whether E was pressed, are inputs.
- One player and one fire are modelled. `place_banana` and `pick_up` loop
  over every player and fire; only one of each is ever spawned.
- The world's item sprites are a multiset of items. Entity identity,
  transforms and the `find` order among same-kind sprites are abstracted.
- The engine's `Timer` is modelled only in repeating, unpaused mode, in
  whole nanoseconds. The engine source is not part of this model.
- The dialogue runner is not modelled: its script execution, its node
  lookup and its variable storage (`$_has_*`, written by several systems).
  The `$learned_pen` variable is an input of `UpdatePaperText`. The
  `expect("only one dialogue runner")` panics are left out.
- Sound, asset loading, the UI bar (`update_inventory`) and the
  background, wife and dino spawners are left out. So are `spawn_dino`,
  which only triggers an event, and `end_game`, which only sets the next
  screen. Sprite flipping in `update_animation_movement` is left out too.
- Dialogue.RunDirection: `player_run` also stores the end position, an
  `f32`. The model keeps only the direction.
- Movement.ActionsFrozen.Unfreeze: the `usize` underflow at zero is a
  precondition. It is not modelled as a wrap-around or a panic.
- Inventories.TypeAllKeepsWrapped: text is measured in bytes, as
  `String::len` does. A multi-byte key can push a line past six bytes. The
  bound proved is "less than six plus the longest key". That is six
  exactly only for single-byte keys.
- Inventories.UpdatePaperText: the style of the new text sections (font,
  size, colour) is left out.
- Animations.Animation.UpdateTimer: a frame count of zero would panic on
  the remainder. It is excluded by a precondition and not modelled as a
  panic.
- Animations.Animation.constructor: `animations[0]` panics on an empty
  list. The empty list is excluded by a precondition.
- Animations.Animation.UpdateState: the `unwrap` panics when no animation
  shows the new state. The `%` panics when that animation has no frames.
  Both are excluded by a precondition and not modelled as panics.
- Animations.UpdateAnimationMovement: it calls `update_state`, so it has
  the same two preconditions in place of the same two panics.
- Levels.ReconcileEstablishes: the despawn removes only the one sprite that
  `find` returns. The lemma therefore assumes at most one sprite per table
  item beforehand. That it is one afterwards is proved, but the model does
  not prove that every other system keeps the bound.
