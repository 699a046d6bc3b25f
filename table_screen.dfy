/**
 * The settings screen: the view controller that turns row items into the
 * data source's snapshot and runs a row's action when it is selected, and
 * the data source's positional header titles.
 */
module TableScreen {
  import opened Wrappers
  import opened Items
  import opened Snapshots
  import opened Grouping

  /** A row's address in the table: section position, then row position. */
  datatype IndexPath = IndexPath(section: int, row: int)

  /** The title each section is known by on screen. */
  function SectionTitle(s: Section): string
  {
    match s
    case Account => "Account"
    case General => "General"
    case Homebase => "Home Base"
  }

  /**
   * `CustomTableViewDataSource.tableView(_:titleForHeaderInSection:)`: the
   * title depends on the position alone, and is the title of the section
   * that the fixed order puts at that position.
   */
  function TitleForHeaderInSection(section: int): (r: Option<string>)
    ensures r.Some? <==> 0 <= section < |AllSections|
    ensures r.Some? ==> r.value == SectionTitle(AllSections[section])
  {
    match section
    case 0 => Some("Account")
    case 1 => Some("General")
    case 2 => Some("Home Base")
    case _ => None
  }

  /** The data source's `itemIdentifier(for:)`: the row at a path, if there is one. */
  function ItemIdentifier(snap: Snapshot, path: IndexPath): (r: Option<Item>)
    ensures r.Some? <==> 0 <= path.section < |snap| && 0 <= path.row < |snap[path.section].rows|
    ensures r.Some? ==> r.value in snap[path.section].rows
  {
    if 0 <= path.section < |snap| && 0 <= path.row < |snap[path.section].rows|
    then Some(snap[path.section].rows[path.row])
    else None
  }

  /** The screen's row items, as it builds them when it appears. */
  function ScreenItems(): (r: seq<Item>)
    ensures |r| == 11
    ensures forall i :: 0 <= i < |r| ==> !r[i].isHidden
  {
    [ NewItem("Email", Account),
      NewItem("Change Account Password", Account).(hasDisclosureIndicator := true),
      NewItem("Privacy", Account).(hasDisclosureIndicator := true),
      NewItem("Push Notification", General).(hasDisclosureIndicator := true),
      NewItem("Security", General).(hasDisclosureIndicator := true),
      NewItem("Firmware Version", Homebase),
      NewItem("Paired Wifi: XXXXXX", Homebase).(isHidden := false),
      NewItem("Update Wifi Credential", Homebase).(hasDisclosureIndicator := true, action := 1),
      NewItem("Disable Home Base", Homebase).(textColor := Orange),
      NewItem("Reboot Home Base", Homebase).(textColor := Orange),
      NewItem("Remove Home Base", Homebase).(textColor := Red) ]
  }

  /**
   * One of the three identical steps that end `createSnapShot`: when the
   * section's bucket has rows, append the section (as `sections` lists it)
   * and then its rows; otherwise leave the snapshot alone.
   */
  method AppendSectionIfAny(snapshot: Snapshot, sections: seq<Section>, s: Section, bucket: seq<Item>)
    returns (r: Snapshot)
    requires bucket != [] ==> Filter(sections, s) == [s]
    requires s !in SectionsOf(snapshot)
    ensures r == snapshot + (if bucket == [] then [] else [SectionRows(s, bucket)])
  {
    r := snapshot;
    if bucket != [] {
      AppendSectionThenItems(snapshot, s, bucket);
      r := AppendSections(r, Filter(sections, s));
      r := AppendItems(r, bucket, s);
    }
  }

  /**
   * `TestViewController`. Its data source is reduced to the snapshot it
   * renders, and the effect of running row actions to a log of their ids.
   */
  class TestViewController {
    /** The snapshot last applied to the data source. */
    var rendered: Snapshot
    /** Every action run so far, oldest first. */
    var actionLog: seq<ActionId>

    constructor ()
      ensures rendered == [] && actionLog == []
    {
      rendered := [];
      actionLog := [];
    }

    /**
     * `createSnapShot(sections:rowItems:)`. For a section with visible rows
     * the real snapshot traps when `sections` lists it twice (a repeated
     * section) or not at all (rows appended to a missing section), so
     * callers must list each such section exactly once; sections without
     * visible rows may be listed any number of times. The result does not
     * depend on the order of `sections`.
     */
    method CreateSnapShot(sections: seq<Section>, rowItems: seq<Item>)
      requires forall s :: Bucket(rowItems, s) != [] ==> Filter(sections, s) == [s]
      modifies this`rendered
      ensures rendered == Grouped(rowItems)
    {
      var snapshot: Snapshot := [];

      var accountSectionItems: seq<Item> := [];
      var generalSectionItems: seq<Item> := [];
      var homebaseSectionItems: seq<Item> := [];

      for i := 0 to |rowItems|
        invariant accountSectionItems == Bucket(rowItems[..i], Account)
        invariant generalSectionItems == Bucket(rowItems[..i], General)
        invariant homebaseSectionItems == Bucket(rowItems[..i], Homebase)
      {
        var item := rowItems[i];
        assert rowItems[..i + 1][..i] == rowItems[..i];
        if !item.isHidden {
          match item.section
          case Account => accountSectionItems := accountSectionItems + [item];
          case General => generalSectionItems := generalSectionItems + [item];
          case Homebase => homebaseSectionItems := homebaseSectionItems + [item];
        }
      }
      assert rowItems[..|rowItems|] == rowItems;

      LeadingSections(rowItems);
      ghost var account, general := Entry(rowItems, Account), Entry(rowItems, General);
      snapshot := AppendSectionIfAny(snapshot, sections, Account, accountSectionItems);
      assert snapshot == account;
      snapshot := AppendSectionIfAny(snapshot, sections, General, generalSectionItems);
      assert snapshot == account + general;
      snapshot := AppendSectionIfAny(snapshot, sections, Homebase, homebaseSectionItems);

      rendered := snapshot;
    }

    /** `viewDidAppear(_:)`: shows the screen's items under all three sections. */
    method ViewDidAppear()
      modifies this`rendered
      ensures rendered == Grouped(ScreenItems())
    {
      var sections := [Account, General, Homebase];
      forall s: Section ensures s in sections {
        assert sections[Rank(s)] == s;
      }
      DistinctListedSectionsAppendable(sections, ScreenItems());
      CreateSnapShot(sections, ScreenItems());
    }

    /** `performAction()` of an item: runs its closure, recorded by its id. */
    method PerformAction(item: Item)
      modifies this`actionLog
      ensures actionLog == old(actionLog) + [item.action]
    {
      actionLog := actionLog + [item.action];
    }

    /**
     * `tableView(_:didSelectRowAt:)`: runs the action of the row at the
     * path once, and nothing when no row is there.
     */
    method DidSelectRowAt(indexPath: IndexPath)
      modifies this`actionLog
      ensures ItemIdentifier(rendered, indexPath).Some? ==>
        actionLog == old(actionLog) + [ItemIdentifier(rendered, indexPath).value.action]
      ensures ItemIdentifier(rendered, indexPath).None? ==> actionLog == old(actionLog)
    {
      var item := ItemIdentifier(rendered, indexPath);
      if item.Some? {
        PerformAction(item.value);
      }
    }
  }

  /**
   * The sections with visible rows come first in the fixed order: general
   * only with account, homebase only with both.
   */
  predicate NoSectionSkipped(items: seq<Item>)
  {
    && (Bucket(items, General) != [] ==> Bucket(items, Account) != [])
    && (Bucket(items, Homebase) != [] ==> Bucket(items, Account) != [] && Bucket(items, General) != [])
  }

  /**
   * Positional titles name the rendered sections correctly exactly when no
   * section is skipped before a present one: general only with account,
   * homebase only with both.
   */
  lemma HeaderTitlesMatchSectionsIff(items: seq<Item>)
    ensures (forall k :: 0 <= k < |Grouped(items)| ==>
               TitleForHeaderInSection(k) == Some(SectionTitle(Grouped(items)[k].section)))
      <==> NoSectionSkipped(items)
  {
    var g := Grouped(items);
    var a, ge, h := Bucket(items, Account) != [], Bucket(items, General) != [], Bucket(items, Homebase) != [];
    if ge && !a {
      assert g[0].section == General;
      assert TitleForHeaderInSection(0) != Some(SectionTitle(General));
    } else if h && !(a && ge) {
      assert g[|g| - 1].section == Homebase;
      assert |g| - 1 < 2;
      assert TitleForHeaderInSection(|g| - 1) != Some(SectionTitle(Homebase));
    } else {
      assert SectionsOf(g) == AllSections[..|g|];
    }
  }

  /**
   * With no visible account row, the general section moves to position 0
   * and is shown under the title "Account"; a homebase section after it is
   * shown under "General".
   */
  lemma AccountEmptyShiftsTitles(items: seq<Item>)
    requires forall i :: 0 <= i < |items| ==> !InBucket(items[i], Account)
    requires exists i :: 0 <= i < |items| && InBucket(items[i], General)
    ensures |Grouped(items)| >= 1 && Grouped(items)[0].section == General
    ensures TitleForHeaderInSection(0) == Some("Account")
    ensures |Grouped(items)| == 2 ==> Grouped(items)[1].section == Homebase && TitleForHeaderInSection(1) == Some("General")
  {
    BucketNonEmpty(items, Account);
    BucketNonEmpty(items, General);
  }

  /**
   * When the screen appears every section has a visible row, so all three
   * are rendered in order and each header carries its own section's title.
   */
  lemma ScreenHeadersMatchSections()
    ensures SectionsOf(Grouped(ScreenItems())) == AllSections
    ensures forall k :: 0 <= k < |Grouped(ScreenItems())| ==>
      TitleForHeaderInSection(k) == Some(SectionTitle(Grouped(ScreenItems())[k].section))
  {
    var items := ScreenItems();
    assert InBucket(items[0], Account) && InBucket(items[3], General) && InBucket(items[5], Homebase);
    BucketNonEmpty(items, Account);
    BucketNonEmpty(items, General);
    BucketNonEmpty(items, Homebase);
    HeaderTitlesMatchSectionsIff(items);
  }

  /**
   * The row at a path of the rendered snapshot is there exactly when the
   * path addresses a rendered section and one of its rows; it is then the
   * input item at the position of the `row`-th visible item of that section.
   */
  lemma SelectedRowIsInputItem(items: seq<Item>, path: IndexPath)
    ensures ItemIdentifier(Grouped(items), path).Some? <==>
      0 <= path.section < |Grouped(items)|
      && 0 <= path.row < |Bucket(items, Grouped(items)[path.section].section)|
    ensures ItemIdentifier(Grouped(items), path).Some? ==>
      exists p :: 0 <= p < |items|
        && path.row < |BucketPositions(items, Grouped(items)[path.section].section)|
        && BucketPositions(items, Grouped(items)[path.section].section)[path.row] == p
        && InBucket(items[p], Grouped(items)[path.section].section)
        && ItemIdentifier(Grouped(items), path) == Some(items[p])
  {
    GroupedRowsAreBuckets(items);
    var g := Grouped(items);
    if ItemIdentifier(g, path).Some? {
      var s := g[path.section].section;
      BucketIsOrderedSubsequence(items, s);
      var p := BucketPositions(items, s)[path.row];
      assert p in BucketPositions(items, s);
      assert ItemIdentifier(g, path) == Some(items[p]);
    }
  }

  /**
   * The header mismatch as the code behaves: a lone visible general row, such as the screen's
   * "Push Notification", is rendered at position 0 under the title "Account".
   */
  lemma MisTitledGeneralSection(item: Item)
    requires !item.isHidden && item.section == General
    ensures Grouped([item]) == [SectionRows(General, [item])]
    ensures TitleForHeaderInSection(0) == Some("Account")
    ensures TitleForHeaderInSection(0) != Some(SectionTitle(General))
  {
    BucketOfOne(item, Account);
    BucketOfOne(item, General);
    BucketOfOne(item, Homebase);
  }

  /** The title each header should carry: that of the section rendered there. */
  function TitleForSectionAt(snap: Snapshot, index: int): Option<string>
  {
    if 0 <= index < |snap| then Some(SectionTitle(snap[index].section)) else None
  }

  /** Different sections are known by different titles. */
  lemma SectionTitlesDistinct(s: Section, t: Section)
    ensures SectionTitle(s) == SectionTitle(t) <==> s == t
  {
    if s != t {
      assert SectionTitle(s)[0] != SectionTitle(t)[0] || |SectionTitle(s)| != |SectionTitle(t)|;
    }
  }

  /**
   * Titles taken from the section itself: for every input, each section with visible rows is
   * rendered under its own title, above exactly its rows, and no two
   * headers share a title; where nothing is skipped the corrected titles
   * agree with the positional ones.
   */
  lemma CorrectedTitlesFollowSections(items: seq<Item>, s: Section)
    ensures Bucket(items, s) != [] ==>
      exists k :: 0 <= k < |Grouped(items)|
        && Grouped(items)[k].rows == Bucket(items, s)
        && TitleForSectionAt(Grouped(items), k) == Some(SectionTitle(s))
    ensures forall k, l :: 0 <= k < l < |Grouped(items)| ==>
      TitleForSectionAt(Grouped(items), k) != TitleForSectionAt(Grouped(items), l)
    ensures NoSectionSkipped(items) ==>
      forall k :: 0 <= k < |Grouped(items)| ==>
        TitleForSectionAt(Grouped(items), k) == TitleForHeaderInSection(k)
  {
    var g := Grouped(items);
    GroupedHoldsNonEmptyBuckets(items);
    GroupedRowsAreBuckets(items);
    GroupedSectionOrder(items);
    if Bucket(items, s) != [] {
      var k :| 0 <= k < |g| && SectionsOf(g)[k] == s;
      assert g[k].rows == Bucket(items, s);
    }
    forall k, l | 0 <= k < l < |g| ensures TitleForSectionAt(g, k) != TitleForSectionAt(g, l) {
      SectionTitlesDistinct(g[k].section, g[l].section);
    }
    HeaderTitlesMatchSectionsIff(items);
  }
}
