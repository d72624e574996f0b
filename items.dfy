/**
 * The item vocabulary of the game (`Item` in src/game/inventory.rs): its
 * derived `Display` text and the `From<&str>` conversion used by the
 * dialogue commands.
 */
module Items {
  import opened Common

  datatype Item =
    | Papyrus
    | Knife
    | PapyrusStrips
    | WovenPapyrus
    | Paper
    | WrittenPaper
    | Banana
    | BurntBanana

  /** The derived `Display`: the variant's own name. */
  function Name(item: Item): (name: string)
  {
    match item
    case Papyrus => "Papyrus"
    case Knife => "Knife"
    case PapyrusStrips => "PapyrusStrips"
    case WovenPapyrus => "WovenPapyrus"
    case Paper => "Paper"
    case WrittenPaper => "WrittenPaper"
    case Banana => "Banana"
    case BurntBanana => "BurntBanana"
  }

  /**
   * `Item::from(&str)`: the exact variant names are accepted, anything
   * else is `None` (the source panics with "unknown item").
   */
  function Parse(name: string): (r: Option<Item>)
    ensures r.Some? ==> Name(r.value) == name
    ensures r.None? ==> forall item :: Name(item) != name
  {
    if name == "Papyrus" then Some(Papyrus)
    else if name == "Knife" then Some(Knife)
    else if name == "PapyrusStrips" then Some(PapyrusStrips)
    else if name == "WovenPapyrus" then Some(WovenPapyrus)
    else if name == "Paper" then Some(Paper)
    else if name == "WrittenPaper" then Some(WrittenPaper)
    else if name == "Banana" then Some(Banana)
    else if name == "BurntBanana" then Some(BurntBanana)
    else None
  }

  /** Two items print the same only if they are the same item. */
  lemma NameInjective(a: Item, b: Item)
    ensures Name(a) == Name(b) <==> a == b
  {
    match a
    case Papyrus =>
    case Knife =>
    case PapyrusStrips =>
    case WovenPapyrus =>
    case Paper =>
    case WrittenPaper =>
    case Banana =>
    case BurntBanana =>
  }

  /** Parsing an item's printed name gives the item back. */
  lemma ParseName(item: Item)
    ensures Parse(Name(item)) == Some(item)
  {
    var r := Parse(Name(item));
    assert r.Some?;
    NameInjective(r.value, item);
  }

  /** A name parses exactly when some item prints as it, and then to that item. */
  lemma ParseExactlyNames(name: string, item: Item)
    ensures Parse(name) == Some(item) <==> Name(item) == name
  {
    if Name(item) == name {
      ParseName(item);
    }
  }
}
