# Sectioned settings table, modelled in Dafny

This project models the settings screen of the SectionedTableView sample app
(`TestViewController`), which feeds a UIKit diffable data source. The model covers:

- **Grouping rows into sections.** `createSnapShot(sections:rowItems:)` walks the
  row items once. It drops hidden items and puts each visible item into the bucket
  of its section (account, general, homebase). It then builds a snapshot that
  holds only the non-empty buckets, always in the fixed order account, general,
  homebase.
- **Header titles.** `titleForHeaderInSection` maps section *positions* 0, 1 and 2
  to "Account", "General" and "Home Base", and any other position to nil.
- **Row identity.** A row item's `==` and `hash(into:)` look at its title and at
  nothing else.
- **Selecting a row.** `didSelectRowAt` looks up the item at the index path and
  runs its action once.
- **The screen's data.** `viewDidAppear` builds the screen from eleven fixed items.

The modules:

- `Wrappers`: the optional value.
- `Items`: sections, row items, and their title-only identity and hashing.
- `Snapshots`: the diffable snapshot as a sequence of sections with their rows.
  `appendSections` and `appendItems` are modelled with the section conditions under
  which UIKit traps written as preconditions (duplicate item identifiers are not;
  see "Left out").
- `Grouping`: the specification of the grouping, and what is proved about it.
- `TableScreen`: the view controller as a class, plus the data source's header
  titles.

`TestViewController.CreateSnapShot` keeps the source's loop, its three buckets
and its three append steps. The three append steps are identical apart from the
section, so they are written once, as `AppendSectionIfAny`. The method is proved
to leave `rendered == Grouped(rowItems)`. Every property of the screen is then
proved about the specification function `Grouped`.

Closures cannot be compared, so a row's action is modelled as an identifier.
Running an action appends that identifier to the controller's `actionLog`.
Dafny's own `==` on `Item` compares every field. The source's `==` is the
predicate `SameItem`, and `SameItemDiffersFromValueEquality` shows that the two
differ.

With no visible account row, the header title at position 0 is "Account" even
though a general section sits there. This follows the code, which matches on the
position only.

## Model

| member | source | states |
|---|---|---|
| Items.NewItem | SectionedTableView/TestViewController.swift:175-181 | the memberwise initialiser with its defaults: no disclosure indicator, black text, visible, and the do-nothing action (a definition, used by `ScreenItems`) |
| Items.SameItem | SectionedTableView/TestViewController.swift:191-193 | the item type's `==`: two items are the same row when their titles are equal (a definition; its properties are the lemmas below) |
| Items.HashInto | SectionedTableView/TestViewController.swift:183-185 | `hash(into:)` combines the title, and nothing else, into the hasher (a definition; `HashAgreesWithEquality` relates it to `==`) |
| Items.SameItemIsEquivalence | SectionedTableView/TestViewController.swift:191-193 | `==` on items is reflexive, symmetric and transitive, as `Equatable` requires |
| Items.SameItemIgnoresAllButTitle | SectionedTableView/TestViewController.swift:175-193 | changing section, indicator, colour, visibility or action leaves an item `==` to itself; `==` holds exactly when the titles match |
| Items.SameItemDiffersFromValueEquality | SectionedTableView/TestViewController.swift:191-193 | two items with the title "Email" but different sections are `==`, although they are different values |
| Items.HashAgreesWithEquality | SectionedTableView/TestViewController.swift:183-193 | two items are `==` if and only if hashing them into the same hasher leaves the same state: the `Hashable` law, plus its converse for the values combined |
| Snapshots.AppendSections | SectionedTableView/TestViewController.swift:84 | `appendSections` adds the given sections, with no rows, after the existing ones and changes nothing before them; it requires the new sections to be distinct and not already present |
| Snapshots.AppendSectionsKeepsSectionsUnique | SectionedTableView/TestViewController.swift:84 | appending sections keeps the snapshot's section identifiers unique |
| Snapshots.IndexOf | SectionedTableView/TestViewController.swift:85 | the position returned holds the section, and no earlier position does |
| Snapshots.AppendItems | SectionedTableView/TestViewController.swift:85 | `appendItems(_:toSection:)` adds the rows to the end of that section's rows, keeps the section list, and leaves every other section unchanged; it requires the section to be present |
| Snapshots.AppendSectionThenItems | SectionedTableView/TestViewController.swift:84-85 | appending a fresh section and then its rows adds exactly one section, holding exactly those rows, at the end |
| Grouping.Filter | SectionedTableView/TestViewController.swift:84 | `sections.filter { $0 == s }` yields only copies of `s`, one for every occurrence of `s` in `sections`, and so yields something if and only if `s` is listed |
| Grouping.FilterOnce | SectionedTableView/TestViewController.swift:84 | the filter is exactly `[s]` if and only if `sections` lists `s` exactly once, which is how `createSnapShot`'s precondition reads |
| Grouping.FilterOfDistinct | SectionedTableView/TestViewController.swift:84 | over distinct sections, `sections.filter { $0 == s }` is `[s]` when `s` is listed and empty otherwise |
| Grouping.RepeatedSectionIsKeptTwice | SectionedTableView/TestViewController.swift:84 | a section listed twice is filtered to two copies, which `appendSections` would reject |
| Grouping.DistinctListedSectionsAppendable | SectionedTableView/TestViewController.swift:83-96 | distinct sections that cover every visible item's section list each section with rows exactly once, which is what `createSnapShot` needs |
| Grouping.RepeatedEmptySectionIsHarmless | SectionedTableView/TestViewController.swift:83-96 | listing account twice is harmless when only general has rows, since the account filter is never appended |
| Grouping.BucketSectionsListed | SectionedTableView/TestViewController.swift:70-96 | when every visible item's section is listed, every section with a non-empty bucket is listed |
| Grouping.LeadingSections | SectionedTableView/TestViewController.swift:83-96 | before the general step only account may be present; before the homebase step only account and general may be |
| Grouping.BucketIsOrderedSubsequence | SectionedTableView/TestViewController.swift:70-81 | a bucket's rows are the input's visible items of that section, taken at strictly increasing positions, so their relative order is kept; no other position is taken |
| Grouping.BucketMembers | SectionedTableView/TestViewController.swift:70-81 | an item is in a section's bucket if and only if the input holds it, it is visible, and it belongs to that section |
| Grouping.BucketNonEmpty | SectionedTableView/TestViewController.swift:70-81 | a bucket is non-empty if and only if the input has a visible item of that section |
| Grouping.BucketsPartitionVisible | SectionedTableView/TestViewController.swift:70-81 | the three buckets together hold every visible item exactly as often as the input does |
| Grouping.GroupedIsPermutationOfVisible | SectionedTableView/TestViewController.swift:62-96 | the rows of the built snapshot are a permutation of the visible items, so the total row count equals the visible count |
| Grouping.GroupedOmitsHidden | SectionedTableView/TestViewController.swift:70-81 | every row of the snapshot is an input item that is visible and belongs to the section it sits under |
| Grouping.GroupedRowsAreBuckets | SectionedTableView/TestViewController.swift:83-96 | every section of the snapshot holds its full bucket, which is non-empty |
| Grouping.GroupedHoldsNonEmptyBuckets | SectionedTableView/TestViewController.swift:83-96 | a section is present if and only if its bucket has rows |
| Grouping.GroupedSectionsPresent | SectionedTableView/TestViewController.swift:83-96 | a section is present if and only if some input item of it is visible; an empty section never appears |
| Grouping.GroupedSectionOrder | SectionedTableView/TestViewController.swift:83-96 | sections appear in the fixed order account, general, homebase whatever the order of `sections`, each at most once, at most three in all |
| Grouping.GroupingExample | SectionedTableView/TestViewController.swift:62-96 | an account row and a homebase row give an account section and a homebase section, each holding its one row, with no general section between them |
| TableScreen.TitleForHeaderInSection | SectionedTableView/TestViewController.swift:157-168 | a title is returned if and only if the position is 0, 1 or 2; it is then the title of the section at that position in the fixed order |
| TableScreen.ItemIdentifier | SectionedTableView/TestViewController.swift:152 | `itemIdentifier(for:)` returns a row if and only if the path's section and row are in range, and the row returned belongs to that section |
| TableScreen.ScreenItems | SectionedTableView/TestViewController.swift:38-50 | the screen's eleven row items, none of them hidden |
| TableScreen.AppendSectionIfAny | SectionedTableView/TestViewController.swift:83-96 | one append step: a non-empty bucket becomes one new section at the end, holding exactly that bucket; an empty bucket changes nothing |
| TableScreen.TestViewController.constructor | SectionedTableView/TestViewController.swift:10-21 | a new controller has rendered nothing and run no action |
| TableScreen.TestViewController.CreateSnapShot | SectionedTableView/TestViewController.swift:62-99 | the rendered snapshot is `Grouped(rowItems)`, the specification the `Grouping` lemmas describe; it requires each section that has visible rows to be listed exactly once, which is when the real snapshot does not trap; sections without rows may be repeated or missing |
| TableScreen.TestViewController.ViewDidAppear | SectionedTableView/TestViewController.swift:31-51 | the screen renders `Grouped` of its eleven items, and it meets `CreateSnapShot`'s preconditions |
| TableScreen.TestViewController.PerformAction | SectionedTableView/TestViewController.swift:187-189 | running an item's action records that item's action once, and nothing else |
| TableScreen.TestViewController.DidSelectRowAt | SectionedTableView/TestViewController.swift:150-154 | selecting a path with a row runs exactly that row's action once; selecting a path with no row runs nothing |
| TableScreen.SelectedRowIsInputItem | SectionedTableView/TestViewController.swift:150-154 | a path addresses a row if and only if its section and row are in range; the row is then the input item at the position of that section's `row`-th visible item |
| TableScreen.HeaderTitlesMatchSectionsIff | SectionedTableView/TestViewController.swift:157-168 | every rendered header carries its own section's title if and only if no section is skipped before a present one |
| TableScreen.AccountEmptyShiftsTitles | SectionedTableView/TestViewController.swift:83-96 | with no visible account row but a visible general row, general moves to position 0, which is titled "Account"; a homebase section after it is titled "General" |
| TableScreen.ScreenHeadersMatchSections | SectionedTableView/TestViewController.swift:31-51 | the screen's own items render all three sections in order, each under its own title |
| TableScreen.MisTitledGeneralSection | SectionedTableView/TestViewController.swift:157-168 | a lone visible general item renders as one general section at position 0, whose header reads "Account" and not "General" |
| TableScreen.CorrectedTitlesFollowSections | SectionedTableView/TestViewController.swift:157-168 | with titles taken from the rendered section, every non-empty bucket sits under its own title, no two headers share a title, and these titles equal the positional ones whenever no section is skipped |

## Left out

- The table view's setup, layout constraints, colours and fonts (lines 12-19 and 53-60), cell configuration (lines 109-121), row and header heights (lines 104-106 and 142-144), header decoration (lines 123-140) and the footer view (lines 146-148) have no logic beyond drawing.
- `deselectRow(at:animated:)` (line 151) is an animation only.
- `apply(_:animatingDifferences:completion:)` (line 98) is modelled as replacing the rendered snapshot. The diffing animation is not modelled.
- The lazy, optional `dataSource` is treated as always present. The model does not cover the case where `dataSource?` is nil and no snapshot is applied and no action is run.
- Closures are modelled as opaque action identifiers. What an action does (the `print` at line 46) is not modelled; only that it is run, and how often.
- Swift's `Hasher` is modelled as the sequence of values combined into it. Its seeded finalisation into an integer is not modelled.
- TableScreen.TestViewController.CreateSnapShot: UIKit also traps when two visible items share an identifier, which for this item type means the same title. The model does not require titles to be unique; for such inputs it still ensures `rendered == Grouped(rowItems)`, a rendering that UIKit would trap on instead of producing.
- Items.SameItem: titles are compared as sequences of characters. Swift's `String ==` and `String` hashing use Unicode canonical equivalence, so titles such as "Caf\u{E9}" and "Cafe\u{301}" make two items `==` in Swift but not `SameItem` here. Every title the screen itself uses (lines 39-49) is ASCII, where the two agree.

## Findings

| source | as written | input that shows it | evidently intended | confidence | as-written member | corrected member |
|---|---|---|---|---|---|---|
| SectionedTableView/TestViewController.swift:157-168 | header titles depend on the section's position only, while `createSnapShot` (lines 83-96) leaves out empty sections, so later sections shift down | one visible general item, such as "Push Notification", and no account item: the general section is rendered at position 0 under the header "Account" | each header shows the title of the section rendered at that position | medium, not executed | TableScreen.MisTitledGeneralSection | TableScreen.CorrectedTitlesFollowSections |
