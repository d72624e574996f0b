/**
 * The `Level` resource of src/game/level.rs (the items still lying in the
 * world) and the systems that keep the world's item sprites in step with
 * it, area by area.
 */
module Levels {
  import opened Common
  import opened Items

  /** `Level::default()`: what lies in the world when a game starts. */
  function DefaultItems(): (items: seq<Item>)
  {
    [Papyrus, Knife, Banana]
  }

  class Level {
    var items: seq<Item>

    /** `Level::default()`, inserted afresh on entering the Gameplay screen. */
    constructor ()
      ensures items == DefaultItems()
    {
      items := DefaultItems();
    }
  }

  /** The two parts of the gameplay world. */
  datatype Area = Cave | Outside

  /** No item is listed twice. */
  predicate NoDuplicates(s: seq<Item>)
  {
    forall i, j :: 0 <= i < j < |s| ==> s[i] != s[j]
  }

  /** The items each area places in the world, in the order its systems visit them. */
  function Table(area: Area): (t: seq<Item>)
    ensures NoDuplicates(t)
    ensures forall x :: x in t ==> SpriteFor(x).Some?
  {
    match area
    case Cave => [Knife, BurntBanana]
    case Outside => [WovenPapyrus, Paper, Papyrus, Banana]
  }

  /**
   * The image `spawn_item` gives an item; `None` where it reaches `todo!`
   * and panics.
   */
  function SpriteFor(item: Item): (r: Option<string>)
    ensures r.None? <==> item == PapyrusStrips || item == WrittenPaper
  {
    match item
    case Papyrus => Some("images/papyrus.png")
    case Knife => Some("images/knife.png")
    case WovenPapyrus => Some("images/papyrus_woven.png")
    case Paper => Some("images/paper.png")
    case Banana => Some("images/banan.png")
    case BurntBanana => Some("images/banan_burnt.png")
    case _ => None
  }

  /** Every item of the default level has its place in exactly one area. */
  lemma DefaultItemsPlaced(x: Item)
    requires x in DefaultItems()
    ensures (x in Table(Cave)) != (x in Table(Outside))
  {
  }

  /*
   * Reconciliation. The world's item sprites are counted by kind (a
   * multiset); a system run issues deferred commands, which the engine
   * applies afterwards.
   */

  datatype Command = Spawn(item: Item) | Despawn(item: Item)

  /**
   * What the loop body does for one table item: spawn it when it should be
   * there and is not, despawn the sprite found when it should not be there.
   */
  function ItemCommands(item: Item, level: seq<Item>, world: multiset<Item>): (r: seq<Command>)
    ensures r == [] <==> ((item in world) <==> (item in level))
  {
    var spawned := item in world;
    var shouldHave := item in level;
    if !spawned && shouldHave then [Spawn(item)]
    else if !shouldHave && spawned then [Despawn(item)]
    else []
  }

  /** The commands of one run over `table`, in table order. */
  function ReconcileCommands(table: seq<Item>, level: seq<Item>, world: multiset<Item>): (commands: seq<Command>)
    decreases |table|
  {
    if table == [] then []
    else ReconcileCommands(table[..|table| - 1], level, world) + ItemCommands(table[|table| - 1], level, world)
  }

  /**
   * One run of an area's reconciliation system (the `OnEnter` system and the
   * `Update` system that runs when `Level` changed have the same body).
   */
  method Reconcile(area: Area, level: seq<Item>, world: multiset<Item>) returns (commands: seq<Command>)
    ensures commands == ReconcileCommands(Table(area), level, world)
  {
    var table := Table(area);
    commands := [];
    for k := 0 to |table|
      invariant commands == ReconcileCommands(table[..k], level, world)
    {
      var item := table[k];
      var spawned := item in world;
      var shouldHave := item in level;
      if !spawned && shouldHave {
        commands := commands + [Spawn(item)];
      } else if !shouldHave {
        if spawned {
          commands := commands + [Despawn(item)];
        }
      }
      assert table[..k + 1][..k] == table[..k];
    }
    assert table[..|table|] == table;
  }

  /** The engine applying one command to the world's sprites. */
  function ApplyOne(world: multiset<Item>, c: Command): (after: multiset<Item>)
  {
    match c
    case Spawn(x) => world + multiset{x}
    case Despawn(x) => world - multiset{x}
  }

  function Apply(world: multiset<Item>, commands: seq<Command>): (after: multiset<Item>)
    decreases |commands|
  {
    if commands == [] then world
    else ApplyOne(Apply(world, commands[..|commands| - 1]), commands[|commands| - 1])
  }

  lemma {:induction false} ApplyAppend(world: multiset<Item>, a: seq<Command>, b: seq<Command>)
    ensures Apply(world, a + b) == Apply(Apply(world, a), b)
    decreases |b|
  {
    if b == [] {
      assert a + b == a;
    } else {
      assert (a + b)[..|a + b| - 1] == a + b[..|b| - 1];
      ApplyAppend(world, a, b[..|b| - 1]);
    }
  }

  /** A run only ever names items of its table. */
  lemma {:induction false} ReconcileTouchesOnlyTable(table: seq<Item>, level: seq<Item>, world: multiset<Item>, i: nat)
    requires i < |ReconcileCommands(table, level, world)|
    ensures ReconcileCommands(table, level, world)[i].item in table
    decreases |table|
  {
    var init := table[..|table| - 1];
    var front := ReconcileCommands(init, level, world);
    if i < |front| {
      ReconcileTouchesOnlyTable(init, level, world, i);
    }
  }

  /**
   * For a table item, a run spawns it exactly when it should be there and
   * is not, and despawns one sprite exactly when it is there and should not
   * be.
   */
  lemma {:induction false} ReconcileCommandsFor(table: seq<Item>, level: seq<Item>, world: multiset<Item>, x: Item)
    requires NoDuplicates(table) && x in table
    ensures Spawn(x) in ReconcileCommands(table, level, world) <==> x !in world && x in level
    ensures Despawn(x) in ReconcileCommands(table, level, world) <==> x in world && x !in level
    decreases |table|
  {
    var init := table[..|table| - 1];
    var last := table[|table| - 1];
    var front := ReconcileCommands(init, level, world);
    assert NoDuplicates(init);
    if x == last {
      assert x !in init;
      forall i | 0 <= i < |front|
        ensures front[i].item != x
      {
        ReconcileTouchesOnlyTable(init, level, world, i);
      }
    } else {
      assert x in init;
      ReconcileCommandsFor(init, level, world, x);
    }
  }

  /**
   * After the engine applies a run's commands, each table item has exactly
   * one sprite when it is in the level and none otherwise, provided no item
   * had two sprites before; items outside the table keep their sprites.
   */
  lemma {:induction false} ReconcileEstablishes(table: seq<Item>, level: seq<Item>, world: multiset<Item>, x: Item)
    requires NoDuplicates(table)
    requires forall y :: y in table ==> world[y] <= 1
    ensures Apply(world, ReconcileCommands(table, level, world))[x]
         == if x in table then (if x in level then 1 else 0) else world[x]
    decreases |table|
  {
    if table != [] {
      var init := table[..|table| - 1];
      var last := table[|table| - 1];
      assert NoDuplicates(init);
      assert table == init + [last];
      ApplyAppend(world, ReconcileCommands(init, level, world), ItemCommands(last, level, world));
      var mid := Apply(world, ReconcileCommands(init, level, world));
      ReconcileEstablishes(init, level, world, x);
      ReconcileEstablishes(init, level, world, last);
      assert last !in init;
      assert mid[last] == world[last];
      var cs := ItemCommands(last, level, world);
      if cs != [] {
        assert cs[..|cs| - 1] == [];
      }
    }
  }

  /** When every table item's presence already matches the level, a run issues nothing. */
  lemma {:induction false} ReconcileQuiet(table: seq<Item>, level: seq<Item>, world: multiset<Item>)
    requires forall y :: y in table ==> (y in world <==> y in level)
    ensures ReconcileCommands(table, level, world) == []
    decreases |table|
  {
    if table != [] {
      ReconcileQuiet(table[..|table| - 1], level, world);
    }
  }

  /** A second run straight after the first (with the level unchanged) does nothing. */
  lemma ReconcileIdempotent(table: seq<Item>, level: seq<Item>, world: multiset<Item>)
    requires NoDuplicates(table)
    requires forall y :: y in table ==> world[y] <= 1
    ensures ReconcileCommands(table, level, Apply(world, ReconcileCommands(table, level, world))) == []
  {
    var after := Apply(world, ReconcileCommands(table, level, world));
    forall y | y in table
      ensures y in after <==> y in level
    {
      ReconcileEstablishes(table, level, world, y);
    }
    ReconcileQuiet(table, level, after);
  }
}
