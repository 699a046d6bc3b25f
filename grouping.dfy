/**
 * What `createSnapShot(sections:rowItems:)` computes, stated as functions of
 * its input, and the properties the screen relies on: hidden rows are
 * dropped, every visible row lands in its own section in input order, and
 * only sections with rows are emitted, always account, general, homebase.
 */
module Grouping {
  import opened Items
  import opened Snapshots

  /** An item goes into section `s`'s bucket: it is visible and belongs to `s`. */
  predicate InBucket(item: Item, s: Section)
  {
    !item.isHidden && item.section == s
  }

  /** The rows of section `s`: its visible items, in input order. */
  function Bucket(items: seq<Item>, s: Section): seq<Item>
    decreases |items|
  {
    if items == [] then []
    else
      var n := |items| - 1;
      Bucket(items[..n], s) + (if InBucket(items[n], s) then [items[n]] else [])
  }

  /** The bucket of a one-row list: that row, when it belongs there. */
  lemma BucketOfOne(x: Item, s: Section)
    ensures Bucket([x], s) == if InBucket(x, s) then [x] else []
  {
    assert [x][..0] == [];
  }

  /** The input positions whose items make up `Bucket(items, s)`. */
  function BucketPositions(items: seq<Item>, s: Section): seq<nat>
    decreases |items|
  {
    if items == [] then []
    else
      var n := |items| - 1;
      BucketPositions(items[..n], s) + (if InBucket(items[n], s) then [n] else [])
  }

  /** Every visible item, in input order. */
  function Visible(items: seq<Item>): seq<Item>
    decreases |items|
  {
    if items == [] then []
    else
      var n := |items| - 1;
      Visible(items[..n]) + (if items[n].isHidden then [] else [items[n]])
  }

  /** Section `s` with its rows, or nothing when it has none. */
  function Entry(items: seq<Item>, s: Section): Snapshot
  {
    var rows := Bucket(items, s);
    if rows == [] then [] else [SectionRows(s, rows)]
  }

  /** The snapshot the screen shows for a list of row items. */
  function Grouped(items: seq<Item>): Snapshot
  {
    Entry(items, Account) + Entry(items, General) + Entry(items, Homebase)
  }

  /** All rows of a snapshot, section after section. */
  function Rows(snap: Snapshot): seq<Item>
  {
    if snap == [] then [] else snap[0].rows + Rows(snap[1..])
  }

  /** `sections.filter { $0 == s }`: the occurrences of `s`, in order. */
  function Filter(sections: seq<Section>, s: Section): (r: seq<Section>)
    ensures forall k :: 0 <= k < |r| ==> r[k] == s
    ensures r != [] <==> s in sections
    ensures |r| == multiset(sections)[s]
  {
    if sections == [] then []
    else
      assert sections == [sections[0]] + sections[1..];
      (if sections[0] == s then [s] else []) + Filter(sections[1..], s)
  }

  /** The filter yields the section alone exactly when the list holds it once. */
  lemma FilterOnce(sections: seq<Section>, s: Section)
    ensures Filter(sections, s) == [s] <==> multiset(sections)[s] == 1
  {
    if multiset(sections)[s] == 1 {
      assert Filter(sections, s)[0] == s;
    }
  }

  /**
   * On a list without repeats, the filter yields the section alone when the
   * list holds it and nothing otherwise.
   */
  lemma {:induction false} FilterOfDistinct(sections: seq<Section>, s: Section)
    requires NoDuplicates(sections)
    ensures Filter(sections, s) == if s in sections then [s] else []
  {
    if sections != [] {
      var tail := sections[1..];
      assert NoDuplicates(tail) by {
        forall i, j | 0 <= i < j < |tail| ensures tail[i] != tail[j] {
          assert tail[i] == sections[i + 1] && tail[j] == sections[j + 1];
        }
      }
      FilterOfDistinct(tail, s);
      assert sections == [sections[0]] + tail;
      if sections[0] == s {
        assert s !in tail by {
          forall k | 0 <= k < |tail| ensures tail[k] != s {
            assert sections[k + 1] != sections[0];
          }
        }
      }
    }
  }

  /** Every section with visible items is listed, when every visible item's section is. */
  lemma BucketSectionsListed(sections: seq<Section>, items: seq<Item>)
    requires forall item :: item in items && !item.isHidden ==> item.section in sections
    ensures forall s :: Bucket(items, s) != [] ==> s in sections
  {
    forall s | Bucket(items, s) != [] ensures s in sections {
      BucketMembers(items, s);
      assert Bucket(items, s)[0] in Bucket(items, s);
    }
  }

  /**
   * Distinct sections that cover every visible item's section give each
   * section with rows exactly one entry in its filter.
   */
  lemma DistinctListedSectionsAppendable(sections: seq<Section>, items: seq<Item>)
    requires NoDuplicates(sections)
    requires forall item :: item in items && !item.isHidden ==> item.section in sections
    ensures forall s :: Bucket(items, s) != [] ==> Filter(sections, s) == [s]
  {
    BucketSectionsListed(sections, items);
    forall s | Bucket(items, s) != [] ensures Filter(sections, s) == [s] {
      FilterOfDistinct(sections, s);
    }
  }

  /**
   * A section listed twice is harmless while it has no visible rows: its
   * filter is never appended.
   */
  lemma RepeatedEmptySectionIsHarmless(item: Item)
    requires !item.isHidden && item.section == General
    ensures !NoDuplicates([Account, Account, General])
    ensures forall s :: Bucket([item], s) != [] ==> Filter([Account, Account, General], s) == [s]
  {
    var sections := [Account, Account, General];
    assert sections[0] == sections[1];
    assert sections[1..] == [Account, General] && sections[2..] == [General];
    forall s | Bucket([item], s) != [] ensures Filter(sections, s) == [s] {
      BucketOfOne(item, s);
    }
  }

  /** The sections built before homebase: at most account then general. */
  lemma LeadingSections(items: seq<Item>)
    ensures General !in SectionsOf(Entry(items, Account))
    ensures Homebase !in SectionsOf(Entry(items, Account))
    ensures Homebase !in SectionsOf(Entry(items, Account) + Entry(items, General))
  {
    SectionsOfJoin(Entry(items, Account), Entry(items, General));
    EntrySections(items, Account, General);
    EntrySections(items, Account, Homebase);
    EntrySections(items, General, Homebase);
  }

  /** A repeated section is kept as often as it is repeated. */
  lemma RepeatedSectionIsKeptTwice()
    ensures Filter([Account, General, Account], Account) == [Account, Account]
    ensures !NoDuplicates(Filter([Account, General, Account], Account))
  {
    var kept := Filter([Account, General, Account], Account);
    assert [Account, General, Account][1..] == [General, Account];
    assert [General, Account][1..] == [Account];
    assert kept[0] == kept[1];
  }

  /** The positions pick out the bucket's rows, one position per row. */
  lemma {:induction false} BucketPositionsSelectRows(items: seq<Item>, s: Section)
    ensures |BucketPositions(items, s)| == |Bucket(items, s)|
    ensures forall k :: 0 <= k < |BucketPositions(items, s)| ==>
      BucketPositions(items, s)[k] < |items| && items[BucketPositions(items, s)[k]] == Bucket(items, s)[k]
    decreases |items|
  {
    if items != [] {
      var n := |items| - 1;
      var prefix := items[..n];
      BucketPositionsSelectRows(prefix, s);
      var pre := BucketPositions(prefix, s);
      assert BucketPositions(items, s) == pre + (if InBucket(items[n], s) then [n] else []);
      assert Bucket(items, s) == Bucket(prefix, s) + (if InBucket(items[n], s) then [items[n]] else []);
      assert forall k :: 0 <= k < |pre| ==> items[pre[k]] == prefix[pre[k]];
    }
  }

  /**
   * The positions increase, and they are exactly the positions of the
   * visible items of `s`.
   */
  lemma {:induction false} BucketPositionsExact(items: seq<Item>, s: Section)
    ensures forall k :: 0 <= k < |BucketPositions(items, s)| ==> BucketPositions(items, s)[k] < |items|
    ensures forall k, l :: 0 <= k < l < |BucketPositions(items, s)| ==>
      BucketPositions(items, s)[k] < BucketPositions(items, s)[l]
    ensures forall i :: 0 <= i < |items| ==> (i in BucketPositions(items, s) <==> InBucket(items[i], s))
    decreases |items|
  {
    if items != [] {
      var n := |items| - 1;
      var prefix := items[..n];
      BucketPositionsExact(prefix, s);
      var pre := BucketPositions(prefix, s);
      var pos := BucketPositions(items, s);
      assert pos == pre + (if InBucket(items[n], s) then [n] else []);
      forall i | 0 <= i < |items| ensures i in pos <==> InBucket(items[i], s) {
        if i == n {
          assert n !in pre;
        } else {
          assert items[i] == prefix[i];
        }
      }
    }
  }

  /**
   * The bucket of `s` is exactly the subsequence of the input at the
   * positions of the visible items of `s`: the positions increase, so the
   * relative order of the input is kept, and no other position is taken.
   */
  lemma BucketIsOrderedSubsequence(items: seq<Item>, s: Section)
    ensures |BucketPositions(items, s)| == |Bucket(items, s)|
    ensures forall k :: 0 <= k < |BucketPositions(items, s)| ==>
      BucketPositions(items, s)[k] < |items| && items[BucketPositions(items, s)[k]] == Bucket(items, s)[k]
    ensures forall k, l :: 0 <= k < l < |BucketPositions(items, s)| ==>
      BucketPositions(items, s)[k] < BucketPositions(items, s)[l]
    ensures forall i :: 0 <= i < |items| ==> (i in BucketPositions(items, s) <==> InBucket(items[i], s))
  {
    BucketPositionsSelectRows(items, s);
    BucketPositionsExact(items, s);
  }

  /** An item is in the bucket of `s` exactly when the input holds it visible in `s`. */
  lemma {:induction false} BucketMembers(items: seq<Item>, s: Section)
    ensures forall x :: x in Bucket(items, s) <==> x in items && InBucket(x, s)
    decreases |items|
  {
    if items != [] {
      var n := |items| - 1;
      BucketMembers(items[..n], s);
      assert items == items[..n] + [items[n]];
    }
  }

  /** A section's bucket is non-empty exactly when the input has a visible item of it. */
  lemma BucketNonEmpty(items: seq<Item>, s: Section)
    ensures Bucket(items, s) != [] <==> exists i :: 0 <= i < |items| && InBucket(items[i], s)
  {
    BucketMembers(items, s);
    if Bucket(items, s) != [] {
      assert Bucket(items, s)[0] in Bucket(items, s);
    } else {
      forall i | 0 <= i < |items| ensures !InBucket(items[i], s) {
        assert items[i] in items;
      }
    }
  }

  /** Extending the input by one item adds it to its bucket, if visible. */
  lemma BucketGrowsByLast(items: seq<Item>, s: Section)
    requires items != []
    ensures multiset(Bucket(items, s)) == multiset(Bucket(items[..|items| - 1], s))
      + (if InBucket(items[|items| - 1], s) then multiset{items[|items| - 1]} else multiset{})
  {
  }

  /**
   * The three buckets split the visible items between them: together they
   * hold every visible item exactly as often as the input does.
   */
  lemma {:induction false} BucketsPartitionVisible(items: seq<Item>)
    ensures multiset(Bucket(items, Account)) + multiset(Bucket(items, General))
      + multiset(Bucket(items, Homebase)) == multiset(Visible(items))
    decreases |items|
  {
    if items != [] {
      var n := |items| - 1;
      var prefix, last := items[..n], items[n];
      BucketsPartitionVisible(prefix);
      BucketGrowsByLast(items, Account);
      BucketGrowsByLast(items, General);
      BucketGrowsByLast(items, Homebase);
      assert multiset(Visible(items)) == multiset(Visible(prefix))
        + (if last.isHidden then multiset{} else multiset{last});
    }
  }

  /** The rows of two snapshots laid end to end. */
  lemma {:induction false} RowsJoin(a: Snapshot, b: Snapshot)
    ensures Rows(a + b) == Rows(a) + Rows(b)
  {
    if a != [] {
      assert (a + b)[0] == a[0];
      assert (a + b)[1..] == a[1..] + b;
      RowsJoin(a[1..], b);
    } else {
      assert a + b == b;
    }
  }

  /** The rows of one section's entry are its bucket. */
  lemma RowsOfEntry(items: seq<Item>, s: Section)
    ensures Rows(Entry(items, s)) == Bucket(items, s)
  {
    var e := Entry(items, s);
    if e != [] {
      assert e[1..] == [];
      assert Rows(e) == e[0].rows + Rows([]);
    }
  }

  /**
   * Grouping neither loses nor invents a row: the snapshot's rows are a
   * permutation of the visible items, so there are as many of them.
   */
  lemma GroupedIsPermutationOfVisible(items: seq<Item>)
    ensures multiset(Rows(Grouped(items))) == multiset(Visible(items))
    ensures |Rows(Grouped(items))| == |Visible(items)|
  {
    var a, g, h := Entry(items, Account), Entry(items, General), Entry(items, Homebase);
    RowsJoin(a, g);
    RowsJoin(a + g, h);
    RowsOfEntry(items, Account);
    RowsOfEntry(items, General);
    RowsOfEntry(items, Homebase);
    var rows := Rows(Grouped(items));
    assert rows == Bucket(items, Account) + Bucket(items, General) + Bucket(items, Homebase);
    BucketsPartitionVisible(items);
    assert multiset(rows) == multiset(Visible(items));
    calc {
      |rows|;
      |multiset(rows)|;
      |multiset(Visible(items))|;
      |Visible(items)|;
    }
  }

  /**
   * No row of the snapshot is hidden, and every row sits in the section its
   * item names.
   */
  lemma GroupedOmitsHidden(items: seq<Item>)
    ensures forall k, j :: 0 <= k < |Grouped(items)| && 0 <= j < |Grouped(items)[k].rows| ==>
      !Grouped(items)[k].rows[j].isHidden
      && Grouped(items)[k].rows[j].section == Grouped(items)[k].section
      && Grouped(items)[k].rows[j] in items
  {
    BucketMembers(items, Account);
    BucketMembers(items, General);
    BucketMembers(items, Homebase);
    var g := Grouped(items);
    forall k, j | 0 <= k < |g| && 0 <= j < |g[k].rows|
      ensures !g[k].rows[j].isHidden && g[k].rows[j].section == g[k].section && g[k].rows[j] in items
    {
      assert g[k].rows == Bucket(items, g[k].section);
      assert g[k].rows[j] in Bucket(items, g[k].section);
    }
  }

  /** The entry of `t` holds section `s` exactly when `s` is `t` and has rows. */
  lemma EntrySections(items: seq<Item>, t: Section, s: Section)
    ensures s in SectionsOf(Entry(items, t)) <==> s == t && Bucket(items, t) != []
  {
  }

  /** Every section of the snapshot holds its full bucket, which is never empty. */
  lemma GroupedRowsAreBuckets(items: seq<Item>)
    ensures forall k :: 0 <= k < |Grouped(items)| ==>
      Grouped(items)[k].rows == Bucket(items, Grouped(items)[k].section) && Grouped(items)[k].rows != []
  {
  }

  /** The snapshot holds a section exactly when that section's bucket has rows. */
  lemma GroupedHoldsNonEmptyBuckets(items: seq<Item>)
    ensures forall s :: s in SectionsOf(Grouped(items)) <==> Bucket(items, s) != []
  {
    var a, g, h := Entry(items, Account), Entry(items, General), Entry(items, Homebase);
    SectionsOfJoin(a, g);
    SectionsOfJoin(a + g, h);
    forall s ensures s in SectionsOf(Grouped(items)) <==> Bucket(items, s) != [] {
      EntrySections(items, Account, s);
      EntrySections(items, General, s);
      EntrySections(items, Homebase, s);
    }
  }

  /**
   * A section is present in the snapshot exactly when some visible item of
   * the input belongs to it; an empty section is left out altogether.
   */
  lemma GroupedSectionsPresent(items: seq<Item>, s: Section)
    ensures s in SectionsOf(Grouped(items)) <==> exists i :: 0 <= i < |items| && InBucket(items[i], s)
  {
    GroupedHoldsNonEmptyBuckets(items);
    BucketNonEmpty(items, s);
  }

  /**
   * Sections appear in the fixed order account, general, homebase, whatever
   * the order of the `sections` argument, so none appears twice.
   */
  lemma GroupedSectionOrder(items: seq<Item>)
    ensures forall k, l :: 0 <= k < l < |Grouped(items)| ==>
      Rank(Grouped(items)[k].section) < Rank(Grouped(items)[l].section)
    ensures NoDuplicates(SectionsOf(Grouped(items)))
    ensures |Grouped(items)| <= 3
  {
  }

  /** One account row and one homebase row give those two sections and leave out general. */
  lemma GroupingExample()
    ensures Grouped([NewItem("Email", Account), NewItem("Firmware Version", Homebase)])
      == [SectionRows(Account, [NewItem("Email", Account)]),
          SectionRows(Homebase, [NewItem("Firmware Version", Homebase)])]
  {
    var email, firmware := NewItem("Email", Account), NewItem("Firmware Version", Homebase);
    var items := [email, firmware];
    assert items[..1] == [email];
    assert [email][..0] == [];
    assert Bucket([email], Account) == [email];
    assert Bucket(items, Account) == [email];
    assert Bucket([email], General) == [];
    assert Bucket(items, General) == [];
    assert Bucket([email], Homebase) == [];
    assert Bucket(items, Homebase) == [firmware];
  }
}
