/**
 * The list bookkeeping shared by `Inventory` and `Level`: both are
 * `Vec<Item>` that the game searches with `iter().position(..)`, shrinks
 * with `Vec::remove` and grows with `Vec::push`.
 */
module ItemLists {
  import opened Common
  import opened Items

  /** `iter().position(|x| *x == item)`: the first index holding `item`. */
  function IndexOf(s: seq<Item>, item: Item): (r: Option<nat>)
    ensures r.None? <==> item !in s
    ensures r.Some? ==> r.value < |s| && s[r.value] == item && item !in s[..r.value]
  {
    if s == [] then None
    else if s[0] == item then Some(0)
    else
      match IndexOf(s[1..], item)
      case None => None
      case Some(i) =>
        assert s[1..][..i] == s[1..i + 1];
        Some(i + 1)
  }

  /**
   * `iter().position(|x| *x.to_string() == name)`: the first index whose
   * item prints as `name`.
   */
  function IndexOfName(s: seq<Item>, name: string): (r: Option<nat>)
    ensures r.Some? ==> r.value < |s| && Name(s[r.value]) == name
  {
    if s == [] then None
    else if Name(s[0]) == name then Some(0)
    else
      match IndexOfName(s[1..], name)
      case None => None
      case Some(i) => Some(i + 1)
  }

  /**
   * Searching by printed name is searching for the parsed item; a name that
   * is no item's name is found nowhere.
   */
  lemma {:induction false} IndexOfNameIsIndexOfParsed(s: seq<Item>, name: string)
    ensures IndexOfName(s, name) == match Parse(name) case None => None case Some(item) => IndexOf(s, item)
  {
    if s != [] {
      ParseExactlyNames(name, s[0]);
      IndexOfNameIsIndexOfParsed(s[1..], name);
    }
  }

  /** `Vec::remove(i)`: drop the element at `i`, shifting the rest left. */
  function RemoveAt(s: seq<Item>, i: nat): (r: seq<Item>)
    requires i < |s|
    ensures |r| == |s| - 1
    ensures multiset(r) == multiset(s) - multiset{s[i]}
    ensures forall j :: 0 <= j < i ==> r[j] == s[j]
    ensures forall j :: i <= j < |r| ==> r[j] == s[j + 1]
  {
    assert s == s[..i] + [s[i]] + s[i + 1..];
    s[..i] + s[i + 1..]
  }

  /**
   * Remove the first occurrence of `item`, if there is one (the pattern
   * `if let Some(i) = position(..) { remove(i) }`).
   */
  function RemoveFirst(s: seq<Item>, item: Item): (r: seq<Item>)
  {
    match IndexOf(s, item)
    case None => s
    case Some(i) => RemoveAt(s, i)
  }

  /**
   * Exactly one `item` leaves the list when there is one, and nothing else
   * does.
   */
  lemma RemoveFirstCounts(s: seq<Item>, item: Item)
    ensures multiset(RemoveFirst(s, item)) == multiset(s) - multiset{item}
    ensures |RemoveFirst(s, item)| == if item in s then |s| - 1 else |s|
  {
  }

  /** The first occurrence of `item` after an `item`-free prefix `p` is at `|p|`. */
  lemma {:induction false} IndexOfAfterPrefix(p: seq<Item>, item: Item, q: seq<Item>)
    requires item !in p
    ensures IndexOf(p + [item] + q, item) == Some(|p|)
  {
    if p != [] {
      assert (p + [item] + q)[1..] == p[1..] + [item] + q;
      IndexOfAfterPrefix(p[1..], item, q);
    }
  }

  /**
   * Only the first occurrence goes and everything else keeps its order:
   * with `p` free of `item`, removing from `p + [item] + q` gives `p + q`.
   */
  lemma RemoveFirstOfSplit(p: seq<Item>, item: Item, q: seq<Item>)
    requires item !in p
    ensures RemoveFirst(p + [item] + q, item) == p + q
  {
    var s := p + [item] + q;
    IndexOfAfterPrefix(p, item, q);
    assert s[..|p|] == p;
    assert s[|p| + 1..] == q;
  }

  /** Remove the first occurrence of each of `xs`, one after the other. */
  function RemoveEach(s: seq<Item>, xs: seq<Item>): (r: seq<Item>)
    decreases |xs|
  {
    if xs == [] then s
    else RemoveFirst(RemoveEach(s, xs[..|xs| - 1]), xs[|xs| - 1])
  }

  /** Removing each of `xs` takes exactly `xs` out of the multiset of `s`, as far as it is there. */
  lemma {:induction false} RemoveEachMultiset(s: seq<Item>, xs: seq<Item>)
    ensures multiset(RemoveEach(s, xs)) == multiset(s) - multiset(xs)
    decreases |xs|
  {
    if xs != [] {
      var init := xs[..|xs| - 1];
      assert xs == init + [xs[|xs| - 1]];
      RemoveEachMultiset(s, init);
      RemoveFirstCounts(RemoveEach(s, init), xs[|xs| - 1]);
    }
  }

  /**
   * Every item is held at most once over the two lists together: nothing is
   * both in the inventory and in the level, and nothing is duplicated.
   */
  ghost predicate Exclusive(inventory: seq<Item>, level: seq<Item>)
  {
    forall x :: multiset(inventory)[x] + multiset(level)[x] <= 1
  }

  /** Moving the first occurrence of `item` from one list to the end of the other keeps exclusivity. */
  lemma MoveKeepsExclusive(a: seq<Item>, b: seq<Item>, item: Item)
    requires Exclusive(a, b) && item in a
    ensures Exclusive(RemoveFirst(a, item), b + [item])
    ensures Exclusive(b + [item], RemoveFirst(a, item))
  {
    var a', b' := RemoveFirst(a, item), b + [item];
    RemoveFirstCounts(a, item);
    forall x
      ensures multiset(a')[x] + multiset(b')[x] <= 1
    {
      assert multiset(b') == multiset(b) + multiset{item};
    }
  }

  /**
   * Replacing the first occurrence of `from` by `to` at the end of a list
   * keeps exclusivity when `to` is held nowhere yet.
   */
  lemma ReplaceKeepsExclusive(a: seq<Item>, b: seq<Item>, from: Item, to: Item)
    requires Exclusive(a, b) && from in a
    requires to !in a && to !in b
    ensures Exclusive(RemoveFirst(a, from) + [to], b)
    ensures Exclusive(b, RemoveFirst(a, from) + [to])
  {
    var a' := RemoveFirst(a, from) + [to];
    RemoveFirstCounts(a, from);
    forall x
      ensures multiset(a')[x] + multiset(b)[x] <= 1
    {
      assert multiset(a') == multiset(a) - multiset{from} + multiset{to};
    }
  }

  /** Moving the first `item` of `a` to the end of `b` changes neither the total nor the combined multiset. */
  lemma MovePreservesTotal(a: seq<Item>, b: seq<Item>, item: Item)
    requires item in a
    ensures multiset(RemoveFirst(a, item)) + multiset(b + [item]) == multiset(a) + multiset(b)
    ensures |RemoveFirst(a, item)| + |b + [item]| == |a| + |b|
  {
    RemoveFirstCounts(a, item);
  }

  /**
   * Taking the first `from` out of `a` and adding a `to` held nowhere yet
   * to the end of `b` keeps exclusivity.
   */
  lemma TransformKeepsExclusive(a: seq<Item>, b: seq<Item>, from: Item, to: Item)
    requires Exclusive(a, b) && from in a
    requires to !in a && to !in b
    ensures Exclusive(RemoveFirst(a, from), b + [to])
  {
    var a', b' := RemoveFirst(a, from), b + [to];
    RemoveFirstCounts(a, from);
    forall x
      ensures multiset(a')[x] + multiset(b')[x] <= 1
    {
      assert multiset(b') == multiset(b) + multiset{to};
    }
  }
}
