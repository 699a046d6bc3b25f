/**
 * The list data a diffable data source renders: an ordered sequence of
 * sections, each with its ordered rows. Only the two operations the screen
 * calls are modelled, with the conditions under which the real snapshot
 * traps at run time written as preconditions.
 */
module Snapshots {
  import opened Items

  /** One rendered section and the rows appended to it. */
  datatype SectionRows = SectionRows(section: Section, rows: seq<Item>)

  type Snapshot = seq<SectionRows>

  /** The snapshot's section identifiers, in order. */
  function SectionsOf(snap: Snapshot): (r: seq<Section>)
    ensures |r| == |snap|
    ensures forall i :: 0 <= i < |snap| ==> r[i] == snap[i].section
  {
    if snap == [] then [] else [snap[0].section] + SectionsOf(snap[1..])
  }

  predicate NoDuplicates(xs: seq<Section>)
  {
    forall i, j :: 0 <= i < j < |xs| ==> xs[i] != xs[j]
  }

  /** Joining two duplicate-free sequences with nothing in common keeps them duplicate-free. */
  lemma NoDuplicatesJoin(a: seq<Section>, b: seq<Section>)
    requires NoDuplicates(a) && NoDuplicates(b)
    requires forall x :: x in b ==> x !in a
    ensures NoDuplicates(a + b)
  {
    forall i, j | 0 <= i < j < |a + b| ensures (a + b)[i] != (a + b)[j] {
      if j >= |a| {
        assert (a + b)[j] == b[j - |a|];
        if i < |a| {
          assert (a + b)[i] in a;
        }
      }
    }
  }

  /** The section identifiers of two snapshots laid end to end. */
  lemma {:induction false} SectionsOfJoin(a: Snapshot, b: Snapshot)
    ensures SectionsOf(a + b) == SectionsOf(a) + SectionsOf(b)
  {
    if a != [] {
      assert (a + b)[1..] == a[1..] + b;
      SectionsOfJoin(a[1..], b);
    }
  }

  /** The given sections, each with no rows yet. */
  function EmptySections(ss: seq<Section>): (r: Snapshot)
    ensures SectionsOf(r) == ss
    ensures forall i :: 0 <= i < |r| ==> r[i].rows == []
  {
    if ss == [] then [] else [SectionRows(ss[0], [])] + EmptySections(ss[1..])
  }

  /**
   * `appendSections(_:)`: adds the given sections, empty, after the existing
   * ones. The snapshot traps on a section identifier that is repeated or
   * already present.
   */
  function AppendSections(snap: Snapshot, ss: seq<Section>): (r: Snapshot)
    requires NoDuplicates(ss)
    requires forall s :: s in ss ==> s !in SectionsOf(snap)
    ensures SectionsOf(r) == SectionsOf(snap) + ss
    ensures |r| == |snap| + |ss| && r[..|snap|] == snap
    ensures forall i :: |snap| <= i < |r| ==> r[i].rows == []
  {
    var added := EmptySections(ss);
    SectionsOfJoin(snap, added);
    assert (snap + added)[..|snap|] == snap;
    snap + added
  }

  /** Appending sections keeps the snapshot's section identifiers unique. */
  lemma AppendSectionsKeepsSectionsUnique(snap: Snapshot, ss: seq<Section>)
    requires NoDuplicates(ss)
    requires forall s :: s in ss ==> s !in SectionsOf(snap)
    requires NoDuplicates(SectionsOf(snap))
    ensures NoDuplicates(SectionsOf(AppendSections(snap, ss)))
  {
    NoDuplicatesJoin(SectionsOf(snap), ss);
  }

  /** Where section `s` first occurs in the snapshot. */
  function IndexOf(snap: Snapshot, s: Section): (k: nat)
    requires s in SectionsOf(snap)
    ensures k < |snap| && snap[k].section == s
    ensures forall j :: 0 <= j < k ==> snap[j].section != s
  {
    if snap[0].section == s then 0
    else
      assert SectionsOf(snap) == [snap[0].section] + SectionsOf(snap[1..]);
      1 + IndexOf(snap[1..], s)
  }

  /**
   * `appendItems(_:toSection:)`: appends the rows to the end of the named
   * section and leaves every other section as it was. The snapshot traps
   * when the section is not present.
   */
  function AppendItems(snap: Snapshot, items: seq<Item>, s: Section): (r: Snapshot)
    requires s in SectionsOf(snap)
    ensures SectionsOf(r) == SectionsOf(snap)
    ensures r[IndexOf(snap, s)].rows == snap[IndexOf(snap, s)].rows + items
    ensures forall i :: 0 <= i < |r| && i != IndexOf(snap, s) ==> r[i] == snap[i]
  {
    var k := IndexOf(snap, s);
    var r := snap[k := SectionRows(s, snap[k].rows + items)];
    assert SectionsOf(r) == SectionsOf(snap);
    r
  }

  /**
   * Appending a fresh section and then its rows adds exactly one section,
   * holding exactly those rows, at the end.
   */
  lemma AppendSectionThenItems(snap: Snapshot, s: Section, rows: seq<Item>)
    requires s !in SectionsOf(snap)
    ensures NoDuplicates([s])
    ensures s in SectionsOf(AppendSections(snap, [s]))
    ensures AppendItems(AppendSections(snap, [s]), rows, s) == snap + [SectionRows(s, rows)]
  {
    var withSection := AppendSections(snap, [s]);
    assert SectionsOf(withSection)[|snap|] == s;
    assert withSection == snap + [SectionRows(s, [])] by {
      assert withSection[|snap|] == SectionRows(s, []);
      assert withSection[..|snap|] == snap;
    }
    assert IndexOf(withSection, s) == |snap| by {
      assert forall j :: 0 <= j < |snap| ==> SectionsOf(snap)[j] != s;
    }
    var r := AppendItems(withSection, rows, s);
    assert r[|snap|] == SectionRows(s, rows) by {
      assert r[|snap|].rows == [] + rows;
      assert SectionsOf(r)[|snap|] == s;
    }
    assert r[..|snap|] == snap;
    assert r == r[..|snap|] + [r[|snap|]];
  }
}
