/**
 * The `Inventory` resource of src/game/inventory.rs and the systems that
 * change it: picking items up, using them from the inventory bar, and the
 * paper the player can write on.
 */
module Inventories {
  import opened Common
  import opened Items
  import opened ItemLists
  import opened Movement
  import opened Levels

  class Inventory {
    var items: seq<Item>

    /** `Inventory::default()`, inserted afresh on entering the Gameplay screen. */
    constructor ()
      ensures items == []
    {
      items := [];
    }
  }

  /**
   * `pick_up` for the one player. `overlapping` lists the world items whose
   * box meets the player's, in query order, and `ePressed` says whether E
   * was pressed this frame. Unless the game is frozen or E was not pressed,
   * every overlapping item moves to the end of the inventory, its first
   * occurrence leaves the level, and each Paper starts the
   * "CollectedPaper" dialogue node (the nodes started are the result) and
   * freezes the game once.
   */
  method PickUp(frozen: ActionsFrozen, inventory: Inventory, level: Level, overlapping: seq<Item>, ePressed: bool)
    returns (nodes: seq<string>)
    modifies frozen, inventory, level
    ensures forall j :: 0 <= j < |nodes| ==> nodes[j] == "CollectedPaper"
    ensures old(frozen.IsFrozen()) || !ePressed ==>
      && nodes == []
      && inventory.items == old(inventory.items)
      && level.items == old(level.items)
      && frozen.freezeCount == old(frozen.freezeCount)
    ensures !old(frozen.IsFrozen()) && ePressed ==>
      && |nodes| == multiset(overlapping)[Paper]
      && inventory.items == old(inventory.items) + overlapping
      && level.items == RemoveEach(old(level.items), overlapping)
      && frozen.freezeCount == old(frozen.freezeCount) + multiset(overlapping)[Paper]
  {
    nodes := [];
    if frozen.IsFrozen() {
      return;
    }
    ghost var items0, level0, count0 := inventory.items, level.items, frozen.freezeCount;
    for i := 0 to |overlapping|
      invariant i > 0 ==> ePressed
      invariant inventory.items == items0 + overlapping[..i]
      invariant level.items == RemoveEach(level0, overlapping[..i])
      invariant frozen.freezeCount == count0 + multiset(overlapping[..i])[Paper]
      invariant |nodes| == multiset(overlapping[..i])[Paper]
      invariant forall j :: 0 <= j < |nodes| ==> nodes[j] == "CollectedPaper"
    {
      var item := overlapping[i];
      if !ePressed {
        return;
      }
      assert overlapping[..i + 1] == overlapping[..i] + [item];
      assert overlapping[..i + 1][..i] == overlapping[..i];
      inventory.items := inventory.items + [item];
      level.items := RemoveFirst(level.items, item);
      if item == Paper {
        nodes := nodes + ["CollectedPaper"];
        frozen.Freeze();
      }
    }
    assert overlapping[..|overlapping|] == overlapping;
  }

  /**
   * Picking up an item that lies in the level keeps every item in at most
   * one place, once.
   */
  lemma PickUpKeepsExclusive(inventory: seq<Item>, level: seq<Item>, item: Item)
    requires Exclusive(inventory, level) && item in level
    ensures Exclusive(inventory + [item], RemoveEach(level, [item]))
  {
    assert [item][..0] == [];
    MoveKeepsExclusive(level, inventory, item);
  }

  /** What clicking an inventory item leads to. */
  datatype Interaction = Ignored | PaperOpened | DialogueStarted(node: string)

  /**
   * `interact_item`: ignored while frozen; the Paper triggers the paper
   * view (which freezes on its own); any other item starts the dialogue
   * named after it and freezes the game once.
   */
  method InteractItem(frozen: ActionsFrozen, item: Item) returns (effect: Interaction)
    modifies frozen
    ensures old(frozen.IsFrozen()) ==> effect == Ignored && frozen.freezeCount == old(frozen.freezeCount)
    ensures !old(frozen.IsFrozen()) && item == Paper ==>
      effect == PaperOpened && frozen.freezeCount == old(frozen.freezeCount)
    ensures !old(frozen.IsFrozen()) && item != Paper ==>
      effect == DialogueStarted(Name(item)) && frozen.freezeCount == old(frozen.freezeCount) + 1
  {
    if frozen.IsFrozen() {
      return Ignored;
    }
    if item == Paper {
      effect := PaperOpened;
    } else {
      effect := DialogueStarted(Name(item));
      frozen.Freeze();
    }
  }

  /*
   * The paper. Its text is a list of sections, one per line, and the width
   * of a line is its length in bytes (`String::len`).
   */

  newtype byte = x: int | 0 <= x < 256

  type Line = seq<byte>

  const MaxWidth: nat := 6
  const MaxHeight: nat := 4
  const Newline: byte := 10

  datatype Key = Character(text: seq<byte>) | OtherKey

  /** A keyboard event: whether the key went down, and its logical key. */
  datatype KeyboardInput = KeyboardInput(pressed: bool, key: Key)

  /** The entities the paper view spawns. */
  class PaperScene {
    /** How many entities carry the `Paper` marker (the big sprite). */
    var papers: nat
    /** The sections of each entity carrying the `PaperText` marker. */
    var texts: seq<seq<Line>>

    /** Every paper text has at least one section. */
    ghost predicate Valid()
      reads this
    {
      forall t :: t in texts ==> |t| > 0
    }

    constructor ()
      ensures Valid() && papers == 0 && texts == []
    {
      papers := 0;
      texts := [];
    }
  }

  /**
   * `open_paper`: unless frozen, spawn the paper and an empty text (one
   * empty section) and freeze the game once.
   */
  method OpenPaper(frozen: ActionsFrozen, scene: PaperScene)
    requires scene.Valid()
    modifies frozen, scene
    ensures scene.Valid()
    ensures old(frozen.IsFrozen()) ==>
      scene.papers == old(scene.papers) && scene.texts == old(scene.texts) && frozen.freezeCount == old(frozen.freezeCount)
    ensures !old(frozen.IsFrozen()) ==>
      && scene.papers == old(scene.papers) + 1
      && scene.texts == old(scene.texts) + [[[]]]
      && frozen.freezeCount == old(frozen.freezeCount) + 1
  {
    if frozen.IsFrozen() {
      return;
    }
    scene.papers := scene.papers + 1;
    scene.texts := scene.texts + [[[]]];
    frozen.Freeze();
  }

  function Last(sections: seq<Line>): (line: Line)
    requires |sections| > 0
  {
    sections[|sections| - 1]
  }

  /**
   * One typed character string: when the last line is full and there is
   * room, end it with a newline and open a new one; then append the
   * characters if the last line still has room.
   */
  function TypeCharacter(sections: seq<Line>, c: seq<byte>): (r: seq<Line>)
    requires |sections| > 0
    ensures |r| == if |Last(sections)| >= MaxWidth && |sections| < MaxHeight then |sections| + 1 else |sections|
    ensures forall i :: 0 <= i < |sections| ==> sections[i] <= r[i]
  {
    var withLine :=
      if |Last(sections)| >= MaxWidth && |sections| < MaxHeight then
        sections[..|sections| - 1] + [Last(sections) + [Newline], []]
      else
        sections;
    if |Last(withLine)| < MaxWidth then withLine[..|withLine| - 1] + [Last(withLine) + c] else withLine
  }

  /** One keyboard event: only key presses of characters type anything. */
  function TypeEvent(sections: seq<Line>, event: KeyboardInput): (r: seq<Line>)
    requires |sections| > 0
  {
    if event.pressed && event.key.Character? then TypeCharacter(sections, event.key.text) else sections
  }

  function TypeAll(sections: seq<Line>, events: seq<KeyboardInput>): (r: seq<Line>)
    requires |sections| > 0
    ensures |r| > 0
    decreases |events|
  {
    if events == [] then sections
    else TypeEvent(TypeAll(sections, events[..|events| - 1]), events[|events| - 1])
  }

  /** The paper's text as one byte string: its sections one after another. */
  function Flat(sections: seq<Line>): (text: seq<byte>)
    decreases |sections|
  {
    if sections == [] then [] else Flat(sections[..|sections| - 1]) + sections[|sections| - 1]
  }

  lemma FlatSnoc(sections: seq<Line>, line: Line)
    ensures Flat(sections + [line]) == Flat(sections) + line
  {
    assert (sections + [line])[..|sections|] == sections;
  }

  /** A full last line with room below: it ends in a newline and the key fills the next line. */
  lemma TypeCharacterOpensLine(sections: seq<Line>, c: seq<byte>)
    requires |sections| > 0 && |Last(sections)| >= MaxWidth && |sections| < MaxHeight
    ensures TypeCharacter(sections, c) == sections[..|sections| - 1] + [Last(sections) + [Newline]] + [c]
    ensures Flat(TypeCharacter(sections, c)) == Flat(sections) + [Newline] + c
  {
    var init := sections[..|sections| - 1];
    var last := Last(sections);
    var withLine := init + [last + [Newline], []];
    assert withLine[..|withLine| - 1] == init + [last + [Newline]];
    assert [] + c == c;
    assert sections == init + [last];
    FlatSnoc(init, last);
    FlatSnoc(init, last + [Newline]);
    FlatSnoc(init + [last + [Newline]], c);
  }

  /** A last line with room: the key goes to its end. */
  lemma TypeCharacterFits(sections: seq<Line>, c: seq<byte>)
    requires |sections| > 0 && |Last(sections)| < MaxWidth
    ensures TypeCharacter(sections, c) == sections[..|sections| - 1] + [Last(sections) + c]
    ensures Flat(TypeCharacter(sections, c)) == Flat(sections) + c
  {
    var init := sections[..|sections| - 1];
    var last := Last(sections);
    assert sections == init + [last];
    FlatSnoc(init, last);
    FlatSnoc(init, last + c);
  }

  /**
   * What one key does to the text: when the last line is full and another
   * line fits, a newline ends it; then the key's bytes go to the end of the
   * text exactly when the last line holds fewer than six bytes, and nothing
   * is typed otherwise.
   */
  lemma TypeCharacterAppends(sections: seq<Line>, c: seq<byte>)
    requires |sections| > 0
    ensures
      var opens := |Last(sections)| >= MaxWidth && |sections| < MaxHeight;
      var room := opens || |Last(sections)| < MaxWidth;
      && Flat(TypeCharacter(sections, c)) == Flat(sections) + (if opens then [Newline] else []) + (if room then c else [])
      && (room ==> Last(TypeCharacter(sections, c)) == (if opens then [] else Last(sections)) + c)
      && (!room ==> TypeCharacter(sections, c) == sections)
  {
    if |Last(sections)| >= MaxWidth && |sections| < MaxHeight {
      TypeCharacterOpensLine(sections, c);
      assert [] + c == c;
    } else if |Last(sections)| < MaxWidth {
      TypeCharacterFits(sections, c);
      assert Flat(sections) + [] == Flat(sections);
    }
  }

  /** Typing never takes back text: what was on the paper stays its beginning. */
  lemma {:induction false} TypeAllExtends(sections: seq<Line>, events: seq<KeyboardInput>)
    requires |sections| > 0
    ensures Flat(sections) <= Flat(TypeAll(sections, events))
    decreases |events|
  {
    if events != [] {
      var init := events[..|events| - 1];
      var e := events[|events| - 1];
      TypeAllExtends(sections, init);
      if e.pressed && e.key.Character? {
        TypeCharacterAppends(TypeAll(sections, init), e.key.text);
      }
    }
  }

  /** A key press that types at least one byte. */
  predicate TypesSomething(event: KeyboardInput)
  {
    event.pressed && event.key.Character? && event.key.text != []
  }

  /**
   * On the empty paper `open_paper` spawns, the first line stays empty
   * until a key press types a byte, and from then on it holds text.
   */
  lemma {:induction false} TypeAllFromEmpty(events: seq<KeyboardInput>)
    ensures (forall i :: 0 <= i < |events| ==> !TypesSomething(events[i])) ==> TypeAll([[]], events) == [[]]
    ensures (exists i :: 0 <= i < |events| && TypesSomething(events[i])) ==> TypeAll([[]], events)[0] != []
    decreases |events|
  {
    if events != [] {
      var init := events[..|events| - 1];
      var e := events[|events| - 1];
      TypeAllFromEmpty(init);
      var before := TypeAll([[]], init);
      var after := TypeAll([[]], events);
      assert after == TypeEvent(before, e);
      if exists i :: 0 <= i < |init| && TypesSomething(init[i]) {
        var j :| 0 <= j < |init| && TypesSomething(init[j]);
        assert events[j] == init[j];
        if e.pressed && e.key.Character? {
          assert before[0] <= after[0];
        }
      } else {
        assert before == [[]];
        if e.pressed && e.key.Character? {
          assert [] + e.key.text == e.key.text;
          assert after == [e.key.text];
        }
        if !TypesSomething(e) {
          assert after == [[]];
          forall i | 0 <= i < |events|
            ensures !TypesSomething(events[i])
          {
            if i < |init| {
              assert events[i] == init[i];
            }
          }
        }
      }
    }
  }

  /**
   * The single paper text counts as written for `close_paper` exactly when
   * some key press typed a byte into it.
   */
  lemma TypedPaperIsWritten(events: seq<KeyboardInput>)
    ensures Written([TypeAll([[]], events)]) <==> exists i :: 0 <= i < |events| && TypesSomething(events[i])
  {
    TypeAllFromEmpty(events);
    var r := TypeAll([[]], events);
    if exists i :: 0 <= i < |events| && TypesSomething(events[i]) {
      assert [r][0] == r && r[0] != [];
    } else {
      assert r == [[]];
    }
  }

  /**
   * Full lines for keys of at most `w` bytes: each holds at least
   * `MaxWidth` bytes of text, fewer than `MaxWidth + w`, and ends in a
   * newline.
   */
  ghost predicate FullLines(lines: seq<Line>, w: nat)
  {
    forall i :: 0 <= i < |lines| ==>
      && MaxWidth < |lines[i]| <= MaxWidth + w
      && lines[i][|lines[i]| - 1] == Newline
  }

  /**
   * The shape of a paper typed with keys of at most `w` bytes: one to four
   * sections, all but the last of them full lines, the last shorter than
   * `MaxWidth + w` bytes.
   */
  ghost predicate Wrapped(sections: seq<Line>, w: nat)
  {
    && 1 <= |sections| <= MaxHeight
    && FullLines(sections[..|sections| - 1], w)
    && |Last(sections)| < MaxWidth + w
  }

  /** The empty paper `open_paper` spawns is wrapped for any key width. */
  lemma EmptyPaperWrapped(w: nat)
    ensures Wrapped([[]], w)
  {
  }

  /** Typing one key of at most `w` bytes keeps the paper wrapped. */
  lemma TypeCharacterKeepsWrapped(sections: seq<Line>, c: seq<byte>, w: nat)
    requires Wrapped(sections, w) && |c| <= w
    ensures Wrapped(TypeCharacter(sections, c), w)
  {
    var n := |sections|;
    var full := sections[..n - 1];
    var last := Last(sections);
    var r := TypeCharacter(sections, c);
    if |last| >= MaxWidth && n < MaxHeight {
      var ended := last + [Newline];
      var withLine := full + [ended, []];
      assert Last(withLine) == [];
      assert withLine[..|withLine| - 1] == full + [ended];
      assert [] + c == c;
      assert r == full + [ended] + [c];
      assert r[..|r| - 1] == full + [ended];
      assert FullLines(full + [ended], w) by {
        forall i | 0 <= i < |full| + 1
          ensures MaxWidth < |(full + [ended])[i]| <= MaxWidth + w
          ensures (full + [ended])[i][|(full + [ended])[i]| - 1] == Newline
        {
          if i < |full| {
            assert (full + [ended])[i] == full[i];
          }
        }
      }
    } else if |last| < MaxWidth {
      assert r == full + [last + c];
      assert r[..|r| - 1] == full;
    } else {
      assert r == sections;
    }
  }

  /**
   * However many events arrive, a paper typed with keys of at most `w`
   * bytes stays wrapped; with single-byte keys every line holds at most six
   * bytes and there are at most four lines.
   */
  lemma {:induction false} TypeAllKeepsWrapped(sections: seq<Line>, events: seq<KeyboardInput>, w: nat)
    requires Wrapped(sections, w)
    requires forall i :: 0 <= i < |events| && events[i].key.Character? ==> |events[i].key.text| <= w
    ensures Wrapped(TypeAll(sections, events), w)
    decreases |events|
  {
    if events != [] {
      var init := events[..|events| - 1];
      var e := events[|events| - 1];
      TypeAllKeepsWrapped(sections, init, w);
      if e.pressed && e.key.Character? {
        TypeCharacterKeepsWrapped(TypeAll(sections, init), e.key.text, w);
      }
    }
  }

  /** Whatever is typed, the paper never has more than four sections. */
  lemma {:induction false} TypeAllBoundsSections(sections: seq<Line>, events: seq<KeyboardInput>)
    requires 1 <= |sections| <= MaxHeight
    ensures |TypeAll(sections, events)| <= MaxHeight
    decreases |events|
  {
    if events != [] {
      TypeAllBoundsSections(sections, events[..|events| - 1]);
    }
  }

  /**
   * `update_paper_text`: unless `$learned_pen` holds (a dialogue variable,
   * given here as `learnedPen`) and there is exactly one paper text, nothing
   * happens; otherwise each key press of a character is typed into it.
   */
  method UpdatePaperText(learnedPen: bool, scene: PaperScene, events: seq<KeyboardInput>)
    requires scene.Valid()
    modifies scene
    ensures scene.Valid() && scene.papers == old(scene.papers)
    ensures scene.texts == if learnedPen && |old(scene.texts)| == 1
      then [TypeAll(old(scene.texts)[0], events)]
      else old(scene.texts)
  {
    if !learnedPen {
      return;
    }
    if |scene.texts| != 1 {
      return;
    }
    for i := 0 to |events|
      invariant scene.papers == old(scene.papers)
      invariant scene.texts == [TypeAll(old(scene.texts)[0], events[..i])]
    {
      assert events[..i + 1][..i] == events[..i];
      var event := events[i];
      if !event.pressed {
        continue;
      }
      match event.key
      case Character(c) =>
        var sections := scene.texts[0];
        if |Last(sections)| >= MaxWidth && |sections| < MaxHeight {
          sections := sections[..|sections| - 1] + [Last(sections) + [Newline]] + [[]];
        }
        if |Last(sections)| < MaxWidth {
          sections := sections[..|sections| - 1] + [Last(sections) + c];
        }
        assert sections == TypeCharacter(scene.texts[0], c);
        scene.texts := [sections];
      case OtherKey =>
        continue;
    }
    assert events[..|events|] == events;
  }

  /** Whether some paper text has anything in its first section. */
  predicate Written(texts: seq<seq<Line>>)
  {
    exists i :: 0 <= i < |texts| && |texts[i]| > 0 && texts[i][0] != []
  }

  /**
   * `close_paper` (on Escape): despawn every paper, unfreezing once for
   * each, and every paper text. If any text was written, the first Paper of
   * the inventory becomes a WrittenPaper at the end of the list; without a
   * Paper to convert, the `unwrap` panics.
   */
  method ClosePaper(frozen: ActionsFrozen, scene: PaperScene, inventory: Inventory) returns (status: Status)
    requires scene.Valid()
    requires frozen.freezeCount >= scene.papers
    modifies frozen, scene, inventory
    ensures scene.Valid() && scene.papers == 0 && scene.texts == []
    ensures frozen.freezeCount == old(frozen.freezeCount) - old(scene.papers)
    ensures !Written(old(scene.texts)) ==> status == Ok && inventory.items == old(inventory.items)
    ensures Written(old(scene.texts)) && Paper !in old(inventory.items) ==>
      status.Panic? && inventory.items == old(inventory.items)
    ensures Written(old(scene.texts)) && Paper in old(inventory.items) ==>
      && status == Ok
      && inventory.items == RemoveFirst(old(inventory.items), Paper) + [WrittenPaper]
      && |inventory.items| == |old(inventory.items)|
  {
    while scene.papers > 0
      invariant frozen.freezeCount - scene.papers == old(frozen.freezeCount) - old(scene.papers)
      invariant frozen.freezeCount >= scene.papers
      invariant scene.texts == old(scene.texts) && inventory.items == old(inventory.items)
    {
      scene.papers := scene.papers - 1;
      frozen.Unfreeze();
    }
    var written := false;
    for j := 0 to |scene.texts|
      invariant written <==> Written(scene.texts[..j])
    {
      if scene.texts[j][0] != [] {
        written := true;
      }
    }
    assert scene.texts[..|scene.texts|] == scene.texts;
    scene.texts := [];
    if !written {
      return Ok;
    }
    match IndexOf(inventory.items, Paper)
    case None =>
      return Panic("called `Option::unwrap()` on a `None` value");
    case Some(index) =>
      inventory.items := RemoveAt(inventory.items, index) + [WrittenPaper];
      return Ok;
  }
}
