/** The saved-courses registry: the seed list, `toggleSave` with its
    `reindex`, the adjacent-swap reordering `moveUp`/`moveDown`, and the
    derived `savedCourses` view. Reactive state becomes an explicit list of
    entries passed in and returned. */
module SavedCourseRegistry {
  import opened SavedEntries
  import opened CourseCatalogue
  import opened Sequences

  /** The list the registry starts from: courses 1, 3 and 5, in that order. */
  function Seed(): seq<Entry> {
    [Entry(1, 0), Entry(3, 1), Entry(5, 2)]
  }

  /** Exchanges the ranks of the entries at positions `a` and `a + 1`, leaving
      both where they are. */
  function SwapOrders(r: seq<Entry>, a: nat): (t: seq<Entry>)
    requires a + 1 < |r|
    ensures |t| == |r| && Ids(t) == Ids(r)
    ensures t[a].order == r[a + 1].order && t[a + 1].order == r[a].order
    ensures forall m :: 0 <= m < |r| && m != a && m != a + 1 ==> t[m] == r[m]
  {
    r[a := Entry(r[a].courseId, r[a + 1].order)][a + 1 := Entry(r[a + 1].courseId, r[a].order)]
  }

  /** `reindex`: the sorted copy with every rank overwritten by its position. */
  function Reindex(s: seq<Entry>): (r: seq<Entry>)
    ensures |r| == |s|
    ensures Ranked(r)
  {
    var sorted := SortByOrder(s);
    seq(|sorted|, i requires 0 <= i < |sorted| => Entry(sorted[i].courseId, i))
  }

  /** `toggleSave`: removes the course and closes the gap, or appends it with
      rank equal to the current count. */
  function ToggleSave(s: seq<Entry>, c: int): (r: seq<Entry>)
    ensures IsSaved(s, c) ==> |r| == |s| - 1
    ensures !IsSaved(s, c) ==> |r| == |s| + 1
  {
    var idx := FindIndex(s, c);
    if idx >= 0 then Reindex(RemoveAt(s, idx))
    else s + [Entry(c, |s|)]
  }

  /** `moveUp`: swaps ranks with the predecessor in rank order and stores the
      sorted copy taken before the swap; unchanged when absent or first. */
  function MoveUp(s: seq<Entry>, c: int): (r: seq<Entry>)
    ensures |r| == |s|
    ensures !IsSaved(s, c) ==> r == s
  {
    var sorted := SortByOrder(s);
    SortSameMembers(s);
    var idx := FindIndex(sorted, c);
    assert idx >= 0 ==> sorted[idx] in s;
    if idx <= 0 then s else SwapOrders(sorted, idx - 1)
  }

  /** `moveDown`: swaps ranks with the successor in rank order and stores the
      sorted copy taken before the swap; unchanged when absent or last. */
  function MoveDown(s: seq<Entry>, c: int): (r: seq<Entry>)
    ensures |r| == |s|
    ensures !IsSaved(s, c) ==> r == s
  {
    var sorted := SortByOrder(s);
    SortSameMembers(s);
    var idx := FindIndex(sorted, c);
    assert idx >= 0 ==> sorted[idx] in s;
    if idx < 0 || idx >= |sorted| - 1 then s else SwapOrders(sorted, idx)
  }

  /** `savedCourses`: the catalogue records of the saved ids in rank order,
      without the ids the catalogue does not know. */
  function SavedCourses(s: seq<Entry>, catalogue: seq<Course>): (r: seq<Course>)
    ensures |r| <= |s|
    ensures forall i :: 0 <= i < |r| ==> r[i] in catalogue && IsSaved(s, r[i].id)
  {
    SortedIdsEnumerateSaved(s);
    Resolve(SortedIds(s), catalogue)
  }

  // ---------------------------------------------------------------------------
  // The seed

  /** The seed satisfies the invariant and is already in rank order, so it is
      shown as courses 1, 3, 5. */
  lemma SeedValid()
    ensures Valid(Seed())
    ensures SortByOrder(Seed()) == Seed()
    ensures Ids(Seed()) == [1, 3, 5]
  {
    assert Valid(Seed());
    assert Ids(Seed()) == [1, 3, 5];
    SortRankedIsSelf(Seed());
  }

  // ---------------------------------------------------------------------------
  // reindex

  /** Reindexing keeps the saved ids and their relative order, and yields dense
      ranks; it keeps ids distinct when the input has distinct ids and ranks. */
  lemma ReindexKeepsSortedIds(s: seq<Entry>)
    ensures SortedIds(Reindex(s)) == SortedIds(s)
    ensures DenseOrders(Reindex(s))
    ensures DistinctIds(s) && DistinctOrders(s) ==> Valid(Reindex(s))
  {
    var r := Reindex(s);
    SortRankedIsSelf(r);
    assert Ids(r) == Ids(SortByOrder(s));
    if DistinctIds(s) && DistinctOrders(s) {
      SortKeepsDistinctIds(s);
      assert DistinctIds(r) by {
        forall a, b | 0 <= a < |r| && 0 <= b < |r| && a != b
          ensures r[a].courseId != r[b].courseId
        {
          assert r[a].courseId == SortByOrder(s)[a].courseId;
          assert r[b].courseId == SortByOrder(s)[b].courseId;
        }
      }
    }
  }

  // ---------------------------------------------------------------------------
  // toggleSave

  /** The add path: every existing entry stays as it was and the new course is
      appended with rank equal to the old count, which puts it last. */
  lemma ToggleSaveAppends(s: seq<Entry>, c: int)
    requires Valid(s)
    requires !IsSaved(s, c)
    ensures |ToggleSave(s, c)| == |s| + 1
    ensures ToggleSave(s, c)[..|s|] == s
    ensures ToggleSave(s, c)[|s|] == Entry(c, |s|)
    ensures Valid(ToggleSave(s, c))
    ensures SortedIds(ToggleSave(s, c)) == SortedIds(s) + [c]
  {
    var t := ToggleSave(s, c);
    assert t == s + [Entry(c, |s|)];
    assert Valid(t);
    var w := SortByOrder(s) + [Entry(c, |s|)];
    SortedPlacement(s);
    forall i | 0 <= i < |t| ensures w[t[i].order] == t[i] {
      if i < |s| {
        assert t[i] == s[i];
      }
    }
    SortedViewUnique(t, w);
    IdsConcat(SortByOrder(s), [Entry(c, |s|)]);
    assert Ids([Entry(c, |s|)]) == [c];
  }

  /** The sorted view after removing the entry at position `i` is the old
      sorted view without that entry. */
  lemma SortAfterRemove(s: seq<Entry>, i: int)
    requires Valid(s)
    requires 0 <= i < |s|
    ensures var k := s[i].order;
      SortByOrder(RemoveAt(s, i)) == RemoveAt(SortByOrder(s), k)
  {
    var k := s[i].order;
    var rest := RemoveAt(s, i);
    var r := SortByOrder(s);
    var w := RemoveAt(r, k);
    SortedPlacement(s);
    SortSameMembers(s);
    SortStrict(s);
    RemoveAtKeepsDistinct(s, i);
    SortStrict(rest);
    SortSameMembers(rest);
    RemoveAtKeepsDistinct(r, k);
    DistinctOrdersNoDuplicates(s);
    RemoveAtMembers(s, i);
    DistinctOrdersNoDuplicates(r);
    RemoveAtMembers(r, k);
    assert r[k] == s[i];
    StrictlySortedUnique(SortByOrder(rest), w);
  }

  /** The remove path: the remaining entries are renumbered `0..n-2` and keep
      their relative order. */
  lemma ToggleSaveRemoves(s: seq<Entry>, c: int)
    requires Valid(s)
    requires IsSaved(s, c)
    ensures var k := OrderOf(s, c);
      && Valid(ToggleSave(s, c))
      && Ranked(ToggleSave(s, c))
      && SortedIds(ToggleSave(s, c)) == RemoveAt(SortedIds(s), k)
  {
    var i := FindIndex(s, c);
    var k := s[i].order;
    var rest := RemoveAt(s, i);
    assert ToggleSave(s, c) == Reindex(rest);
    RemoveAtKeepsDistinct(s, i);
    ReindexKeepsSortedIds(rest);
    SortAfterRemove(s, i);
    var r := SortByOrder(s);
    IdsRemoveAt(r, k);
  }

  /** The registry invariant survives `toggleSave`. */
  lemma ToggleSaveKeepsValid(s: seq<Entry>, c: int)
    requires Valid(s)
    ensures Valid(ToggleSave(s, c))
  {
    if IsSaved(s, c) {
      ToggleSaveRemoves(s, c);
    } else {
      ToggleSaveAppends(s, c);
    }
  }

  /** `toggleSave(c)` flips whether `c` is saved and leaves every other id's
      membership alone. */
  lemma ToggleSaveFlips(s: seq<Entry>, c: int)
    requires Valid(s)
    ensures IsSaved(ToggleSave(s, c), c) <==> !IsSaved(s, c)
    ensures forall d :: d != c ==> (IsSaved(ToggleSave(s, c), d) <==> IsSaved(s, d))
  {
    var t := ToggleSave(s, c);
    SortedIdsEnumerateSaved(s);
    SortedIdsEnumerateSaved(t);
    if IsSaved(s, c) {
      ToggleSaveRemoves(s, c);
      SortedIdsAtOrder(s, c);
      RemoveAtMembers(SortedIds(s), OrderOf(s, c));
    } else {
      ToggleSaveAppends(s, c);
      assert forall d :: d in SortedIds(t) <==> d in SortedIds(s) || d == c;
    }
  }

  /** Toggling a saved course twice keeps it saved but moves it to the end. */
  lemma ToggleSaveTwiceMovesToEnd(s: seq<Entry>, c: int)
    requires Valid(s)
    requires IsSaved(s, c)
    ensures var k := OrderOf(s, c);
      SortedIds(ToggleSave(ToggleSave(s, c), c)) == RemoveAt(SortedIds(s), k) + [c]
  {
    var t := ToggleSave(s, c);
    ToggleSaveRemoves(s, c);
    ToggleSaveFlips(s, c);
    ToggleSaveAppends(t, c);
  }

  /** Toggling an unsaved course twice leaves the list in rank order with the
      same entries. */
  lemma ToggleSaveTwiceRestores(s: seq<Entry>, c: int)
    requires Valid(s)
    requires !IsSaved(s, c)
    ensures ToggleSave(ToggleSave(s, c), c) == SortByOrder(s)
  {
    var t := ToggleSave(s, c);
    ToggleSaveAppends(s, c);
    assert FindIndex(t, c) == |s|;
    assert RemoveAt(t, |s|) == s;
    SortedPlacement(s);
    SortRankedIsSelf(SortByOrder(s));
    var r := Reindex(s);
    forall m | 0 <= m < |s| ensures r[m] == SortByOrder(s)[m] { }
  }

  // ---------------------------------------------------------------------------
  // moveUp / moveDown

  /** Swapping the ranks of two neighbours of a ranked list with distinct ids
      keeps the invariant, and the new sorted view has the two swapped. */
  lemma SortAfterSwap(r: seq<Entry>, a: nat)
    requires Ranked(r) && DistinctIds(r)
    requires a + 1 < |r|
    ensures Valid(SwapOrders(r, a))
    ensures SortByOrder(SwapOrders(r, a))
         == r[a := Entry(r[a + 1].courseId, a)][a + 1 := Entry(r[a].courseId, a + 1)]
    ensures SortedIds(SwapOrders(r, a)) == SwapAdjacent(Ids(r), a)
  {
    var t := SwapOrders(r, a);
    var w := r[a := Entry(r[a + 1].courseId, a)][a + 1 := Entry(r[a].courseId, a + 1)];
    assert Valid(t) by {
      forall i, j | 0 <= i < |t| && 0 <= j < |t| && i != j
        ensures t[i].courseId != t[j].courseId
      {
        assert Ids(t)[i] == Ids(r)[i] && Ids(t)[j] == Ids(r)[j];
      }
    }
    SortedViewUnique(t, w);
    IdsOfSwapped(r, a);
  }

  lemma IdsOfSwapped(r: seq<Entry>, a: nat)
    requires a + 1 < |r|
    ensures Ids(r[a := Entry(r[a + 1].courseId, a)][a + 1 := Entry(r[a].courseId, a + 1)])
         == SwapAdjacent(Ids(r), a)
  {
    var w := r[a := Entry(r[a + 1].courseId, a)][a + 1 := Entry(r[a].courseId, a + 1)];
    var x, y := Ids(w), SwapAdjacent(Ids(r), a);
    assert |x| == |y|;
    forall m | 0 <= m < |x| ensures x[m] == y[m] {
      if m != a && m != a + 1 {
        assert w[m] == r[m];
      }
    }
  }

  /** A valid list's sorted view is ranked with distinct ids. */
  lemma SortedViewOfValid(s: seq<Entry>)
    requires Valid(s)
    ensures Ranked(SortByOrder(s)) && DistinctIds(SortByOrder(s))
  {
    SortedPlacement(s);
    SortKeepsDistinctIds(s);
  }

  /** `moveUp` leaves the list untouched when the course is absent or first. */
  lemma MoveUpNoOp(s: seq<Entry>, c: int)
    requires Valid(s)
    requires !IsSaved(s, c) || OrderOf(s, c) == 0
    ensures MoveUp(s, c) == s
  {
    if IsSaved(s, c) {
      SortedIdsAtOrder(s, c);
    }
  }

  /** `moveDown` leaves the list untouched when the course is absent or last. */
  lemma MoveDownNoOp(s: seq<Entry>, c: int)
    requires Valid(s)
    requires !IsSaved(s, c) || OrderOf(s, c) == |s| - 1
    ensures MoveDown(s, c) == s
  {
    if IsSaved(s, c) {
      SortedIdsAtOrder(s, c);
    }
  }

  /** Swapping the ranks of two neighbours changes those two entries and no
      other. */
  lemma SwapEntrySet(r: seq<Entry>, a: nat)
    requires Ranked(r) && DistinctIds(r)
    requires a + 1 < |r|
    ensures var x, y := r[a].courseId, r[a + 1].courseId;
      forall e :: e in SwapOrders(r, a) <==>
        (e in r && e.courseId != x && e.courseId != y) || e == Entry(y, a) || e == Entry(x, a + 1)
  {
    var t := SwapOrders(r, a);
    var x, y := r[a].courseId, r[a + 1].courseId;
    forall e ensures e in t <==>
        (e in r && e.courseId != x && e.courseId != y) || e == Entry(y, a) || e == Entry(x, a + 1)
    {
      if e in t {
        var m :| 0 <= m < |t| && t[m] == e;
        if m != a && m != a + 1 {
          assert r[m] == e;
        }
      }
      if e in r && e.courseId != x && e.courseId != y {
        var m :| 0 <= m < |r| && r[m] == e;
        assert t[m] == e;
      }
      if e == Entry(y, a) {
        assert t[a + 1] == e;
      }
      if e == Entry(x, a + 1) {
        assert t[a] == e;
      }
    }
  }

  /** When `moveUp` moves, it swaps ranks at the course's position in the
      sorted view and the one before. */
  lemma MoveUpIsSwap(s: seq<Entry>, c: int)
    requires Valid(s)
    requires IsSaved(s, c) && OrderOf(s, c) > 0
    ensures OrderOf(s, c) < |s|
    ensures MoveUp(s, c) == SwapOrders(SortByOrder(s), OrderOf(s, c) - 1)
  {
    SortedIdsAtOrder(s, c);
  }

  /** When `moveDown` moves, it swaps ranks at the course's position in the
      sorted view and the one after. */
  lemma MoveDownIsSwap(s: seq<Entry>, c: int)
    requires Valid(s)
    requires IsSaved(s, c) && OrderOf(s, c) < |s| - 1
    ensures 0 <= OrderOf(s, c)
    ensures MoveDown(s, c) == SwapOrders(SortByOrder(s), OrderOf(s, c))
  {
    SortedIdsAtOrder(s, c);
  }

  /** When `moveUp` moves, the invariant holds afterwards and the sorted ids
      differ from the old ones by swapping the course with its predecessor. */
  lemma MoveUpSwaps(s: seq<Entry>, c: int)
    requires Valid(s)
    requires IsSaved(s, c) && OrderOf(s, c) > 0
    ensures Valid(MoveUp(s, c))
    ensures SortedIds(MoveUp(s, c)) == SwapAdjacent(SortedIds(s), OrderOf(s, c) - 1)
  {
    MoveUpIsSwap(s, c);
    SortedViewOfValid(s);
    SortAfterSwap(SortByOrder(s), OrderOf(s, c) - 1);
  }

  /** When `moveUp` moves, the course and its predecessor `p` exchange ranks
      and every other entry is unchanged. */
  lemma MoveUpChangesOnlyPair(s: seq<Entry>, c: int)
    requires Valid(s)
    requires IsSaved(s, c) && OrderOf(s, c) > 0
    ensures var k := OrderOf(s, c);
      var p := SortedIds(s)[k - 1];
      forall e :: e in MoveUp(s, c) <==>
        (e in s && e.courseId != c && e.courseId != p) || e == Entry(c, k - 1) || e == Entry(p, k)
  {
    var k := OrderOf(s, c);
    var r := SortByOrder(s);
    MoveUpIsSwap(s, c);
    SortedIdsAtOrder(s, c);
    SortedViewOfValid(s);
    SortSameMembers(s);
    assert r[k].courseId == c && r[k - 1].courseId == SortedIds(s)[k - 1];
    SwapEntrySet(r, k - 1);
  }

  /** When `moveDown` moves, the invariant holds afterwards and the sorted ids
      differ from the old ones by swapping the course with its successor. */
  lemma MoveDownSwaps(s: seq<Entry>, c: int)
    requires Valid(s)
    requires IsSaved(s, c) && OrderOf(s, c) < |s| - 1
    ensures Valid(MoveDown(s, c))
    ensures SortedIds(MoveDown(s, c)) == SwapAdjacent(SortedIds(s), OrderOf(s, c))
  {
    MoveDownIsSwap(s, c);
    SortedViewOfValid(s);
    SortAfterSwap(SortByOrder(s), OrderOf(s, c));
  }

  /** When `moveDown` moves, the course and its successor `q` exchange ranks
      and every other entry is unchanged. */
  lemma MoveDownChangesOnlyPair(s: seq<Entry>, c: int)
    requires Valid(s)
    requires IsSaved(s, c) && OrderOf(s, c) < |s| - 1
    ensures var k := OrderOf(s, c);
      var q := SortedIds(s)[k + 1];
      forall e :: e in MoveDown(s, c) <==>
        (e in s && e.courseId != c && e.courseId != q) || e == Entry(c, k + 1) || e == Entry(q, k)
  {
    var k := OrderOf(s, c);
    var r := SortByOrder(s);
    MoveDownIsSwap(s, c);
    SortedIdsAtOrder(s, c);
    SortedViewOfValid(s);
    SortSameMembers(s);
    assert r[k].courseId == c && r[k + 1].courseId == SortedIds(s)[k + 1];
    SwapEntrySet(r, k);
  }

  /** In a valid list, the course found at sorted position `k` has rank `k`. */
  lemma OrderOfSortedId(s: seq<Entry>, k: int)
    requires Valid(s)
    requires 0 <= k < |s|
    ensures IsSaved(s, SortedIds(s)[k]) && OrderOf(s, SortedIds(s)[k]) == k
  {
    var c := SortedIds(s)[k];
    SortedIdsEnumerateSaved(s);
    assert c in SortedIds(s);
    SortedIdsAtOrder(s, c);
  }

  /** A `moveUp` that moves raises the course by exactly one place. */
  lemma MoveUpRank(s: seq<Entry>, c: int)
    requires Valid(s)
    requires IsSaved(s, c) && OrderOf(s, c) > 0
    ensures IsSaved(MoveUp(s, c), c) && OrderOf(MoveUp(s, c), c) == OrderOf(s, c) - 1
  {
    var k := OrderOf(s, c);
    var t := MoveUp(s, c);
    MoveUpSwaps(s, c);
    SortedIdsAtOrder(s, c);
    OrderOfSortedId(t, k - 1);
  }

  /** A `moveDown` that moves lowers the course by exactly one place. */
  lemma MoveDownRank(s: seq<Entry>, c: int)
    requires Valid(s)
    requires IsSaved(s, c) && OrderOf(s, c) < |s| - 1
    ensures IsSaved(MoveDown(s, c), c) && OrderOf(MoveDown(s, c), c) == OrderOf(s, c) + 1
  {
    var k := OrderOf(s, c);
    var t := MoveDown(s, c);
    MoveDownSwaps(s, c);
    SortedIdsAtOrder(s, c);
    OrderOfSortedId(t, k + 1);
  }

  /** A `moveUp` that moves is undone by `moveDown`: the sorted view, and hence
      the rank of every course, is as before. */
  lemma MoveUpThenDown(s: seq<Entry>, c: int)
    requires Valid(s)
    requires IsSaved(s, c) && OrderOf(s, c) > 0
    ensures SortByOrder(MoveDown(MoveUp(s, c), c)) == SortByOrder(s)
    ensures SortedIds(MoveDown(MoveUp(s, c), c)) == SortedIds(s)
  {
    var t := MoveUp(s, c);
    MoveUpSwaps(s, c);
    MoveUpRank(s, c);
    MoveDownSwaps(t, c);
    SwapAdjacentTwice(SortedIds(s), OrderOf(s, c) - 1);
    SortDeterminedByIds(MoveDown(t, c), s);
  }

  /** A `moveDown` that moves is undone by `moveUp`. */
  lemma MoveDownThenUp(s: seq<Entry>, c: int)
    requires Valid(s)
    requires IsSaved(s, c) && OrderOf(s, c) < |s| - 1
    ensures SortByOrder(MoveUp(MoveDown(s, c), c)) == SortByOrder(s)
    ensures SortedIds(MoveUp(MoveDown(s, c), c)) == SortedIds(s)
  {
    var t := MoveDown(s, c);
    MoveDownSwaps(s, c);
    MoveDownRank(s, c);
    MoveUpSwaps(t, c);
    SwapAdjacentTwice(SortedIds(s), OrderOf(s, c));
    SortDeterminedByIds(MoveUp(t, c), s);
  }

  /** The registry invariant survives `moveUp` and `moveDown`. */
  lemma MovesKeepValid(s: seq<Entry>, c: int)
    requires Valid(s)
    ensures Valid(MoveUp(s, c)) && Valid(MoveDown(s, c))
  {
    if IsSaved(s, c) && OrderOf(s, c) > 0 {
      MoveUpSwaps(s, c);
    } else {
      MoveUpNoOp(s, c);
    }
    if IsSaved(s, c) && OrderOf(s, c) < |s| - 1 {
      MoveDownSwaps(s, c);
    } else {
      if IsSaved(s, c) {
        SortedIdsAtOrder(s, c);
      }
      MoveDownNoOp(s, c);
    }
  }

  // ---------------------------------------------------------------------------
  // savedCourses

  /** `savedCourses` lists, in rank order, the catalogue record of every saved
      id the catalogue knows, and nothing else. */
  lemma SavedCoursesInRankOrder(s: seq<Entry>, catalogue: seq<Course>)
    ensures CourseIds(SavedCourses(s, catalogue)) == KnownIds(SortedIds(s), catalogue)
    ensures forall i :: 0 <= i < |SavedCourses(s, catalogue)| ==>
      FindCourse(catalogue, SavedCourses(s, catalogue)[i].id) == Some(SavedCourses(s, catalogue)[i])
  {
    ResolveKeepsKnownIds(SortedIds(s), catalogue);
  }

  /** When the catalogue knows every saved id, `savedCourses` has one record
      per entry, in rank order. */
  lemma SavedCoursesAllKnown(s: seq<Entry>, catalogue: seq<Course>)
    requires forall d :: IsSaved(s, d) ==> Lists(catalogue, d)
    ensures CourseIds(SavedCourses(s, catalogue)) == SortedIds(s)
    ensures |SavedCourses(s, catalogue)| == |s|
  {
    SortedIdsEnumerateSaved(s);
    SavedCoursesInRankOrder(s, catalogue);
    KnownIdsAllListed(SortedIds(s), catalogue);
  }

  /** When the catalogue lacks exactly one saved course, `savedCourses` is one
      shorter and lists the other ids in rank order. */
  lemma SavedCoursesDropsMissing(s: seq<Entry>, catalogue: seq<Course>, c: int)
    requires Valid(s)
    requires IsSaved(s, c) && !Lists(catalogue, c)
    requires forall d :: IsSaved(s, d) && d != c ==> Lists(catalogue, d)
    ensures var k := OrderOf(s, c);
      CourseIds(SavedCourses(s, catalogue)) == RemoveAt(SortedIds(s), k)
    ensures |SavedCourses(s, catalogue)| == |s| - 1
  {
    var ids := SortedIds(s);
    SortedIdsEnumerateSaved(s);
    SortedIdsAtOrder(s, c);
    var k := OrderOf(s, c);
    forall j | 0 <= j < |ids| && j != k ensures Lists(catalogue, ids[j]) {
      assert ids[j] in ids;
    }
    SavedCoursesInRankOrder(s, catalogue);
    KnownIdsDropOne(ids, catalogue, k);
  }
}
