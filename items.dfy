/**
 * The rows of the settings screen: the closed set of table sections and the
 * row item, whose identity (equality and hashing) is its title alone.
 */
module Items {

  /** `TableViewSections`: the three sections, declared in rendering order. */
  datatype Section = Account | General | Homebase

  /** Position of a section in the fixed order account, general, homebase. */
  function Rank(s: Section): nat
  {
    match s
    case Account => 0
    case General => 1
    case Homebase => 2
  }

  /** Every section, in declaration order (`TableViewSections.allCases`). */
  const AllSections: seq<Section> := [Account, General, Homebase]

  /** The text colour of a row; only the three the screen uses are named. */
  datatype Color = Black | Orange | Red | OtherColor(name: string)

  /**
   * The closure a row runs when selected. Closures cannot be compared or
   * inspected, so the model stands for each one by an opaque identifier.
   */
  type ActionId = nat

  /** The default closure `{ }`, which does nothing when run. */
  const NoOpAction: ActionId := 0

  /** `CustomizableTableViewItem`. */
  datatype Item = Item(
    title: string,
    section: Section,
    hasDisclosureIndicator: bool,
    textColor: Color,
    isHidden: bool,
    action: ActionId)

  /** The memberwise initialiser with every defaulted argument left out. */
  function NewItem(title: string, section: Section): Item
  {
    Item(title, section, false, Black, false, NoOpAction)
  }

  /** The item type's `==`: two items are the same row when their titles match. */
  predicate SameItem(a: Item, b: Item)
  {
    a.title == b.title
  }

  /**
   * Swift's `Hasher`, seen from the outside: the sequence of values combined
   * into it. Its seeded finalisation is not modelled.
   */
  datatype Hasher = Hasher(combined: seq<string>)

  function Combine(h: Hasher, value: string): Hasher
  {
    Hasher(h.combined + [value])
  }

  /** The item type's `hash(into:)`: feeds the title, and nothing else. */
  function HashInto(item: Item, h: Hasher): Hasher
  {
    Combine(h, item.title)
  }

  /** `==` is an equivalence relation, as `Equatable` demands. */
  lemma SameItemIsEquivalence(a: Item, b: Item, c: Item)
    ensures SameItem(a, a)
    ensures SameItem(a, b) ==> SameItem(b, a)
    ensures SameItem(a, b) && SameItem(b, c) ==> SameItem(a, c)
  {
  }

  /** Changing any field but the title leaves an item equal to what it was. */
  lemma SameItemIgnoresAllButTitle(a: Item, section: Section, indicator: bool, color: Color, hidden: bool, action: ActionId)
    ensures SameItem(a, Item(a.title, section, indicator, color, hidden, action))
    ensures forall b: Item :: SameItem(a, b) <==> a.title == b.title
  {
  }

  /** Equality is strictly coarser than the values: same title, different rows. */
  lemma SameItemDiffersFromValueEquality()
    ensures SameItem(NewItem("Email", Account), NewItem("Email", Homebase))
    ensures NewItem("Email", Account) != NewItem("Email", Homebase)
  {
  }

  /**
   * The `Hashable` law: equal items hash equally. The hasher receives exactly
   * the title, so its state after `hash(into:)` also determines the title.
   */
  lemma {:induction false} HashAgreesWithEquality(a: Item, b: Item, h: Hasher)
    ensures SameItem(a, b) <==> HashInto(a, h) == HashInto(b, h)
  {
    if HashInto(a, h) == HashInto(b, h) {
      var n := |h.combined|;
      assert HashInto(a, h).combined[n] == a.title;
      assert HashInto(b, h).combined[n] == b.title;
    }
  }
}
