/** The saved-course entries kept by the saved-courses composable: the
    `{courseId, order}` record, the invariant a list of them keeps, the
    membership query and the by-`order` sorted view that every operation of
    the registry starts from. */
module SavedEntries {
  import opened Sequences

  /** One saved course: the catalogue id it refers to and its rank in the list. */
  datatype Entry = Entry(courseId: int, order: int)

  /** No course is saved twice. */
  ghost predicate DistinctIds(s: seq<Entry>) {
    forall i, j :: 0 <= i < |s| && 0 <= j < |s| && i != j ==> s[i].courseId != s[j].courseId
  }

  /** No two entries share a rank. */
  ghost predicate DistinctOrders(s: seq<Entry>) {
    forall i, j :: 0 <= i < |s| && 0 <= j < |s| && i != j ==> s[i].order != s[j].order
  }

  ghost predicate OrdersInRange(s: seq<Entry>) {
    forall i :: 0 <= i < |s| ==> 0 <= s[i].order < |s|
  }

  /** The ranks are pairwise distinct and lie in `0..|s|-1`, that is, they are
      a permutation of `0..|s|-1` (lemma DenseIsPermutation). */
  ghost predicate DenseOrders(s: seq<Entry>) {
    OrdersInRange(s) && DistinctOrders(s)
  }

  /** The registry invariant. */
  ghost predicate Valid(s: seq<Entry>) {
    DistinctIds(s) && DenseOrders(s)
  }

  /** Every entry's rank is its position. */
  ghost predicate Ranked(s: seq<Entry>) {
    forall k :: 0 <= k < |s| ==> s[k].order == k
  }

  ghost predicate SortedByOrder(s: seq<Entry>) {
    forall i, j :: 0 <= i < j < |s| ==> s[i].order <= s[j].order
  }

  ghost predicate StrictlySortedByOrder(s: seq<Entry>) {
    forall i, j :: 0 <= i < j < |s| ==> s[i].order < s[j].order
  }

  /** `Array.prototype.findIndex` on the course id: the first position holding
      `c`, or -1. */
  function FindIndex(s: seq<Entry>, c: int): (r: int)
    ensures -1 <= r < |s|
    ensures r == -1 <==> forall i :: 0 <= i < |s| ==> s[i].courseId != c
    ensures r >= 0 ==> s[r].courseId == c && forall j :: 0 <= j < r ==> s[j].courseId != c
  {
    if |s| == 0 then -1
    else if s[0].courseId == c then 0
    else
      var k := FindIndex(s[1..], c);
      if k < 0 then -1 else k + 1
  }

  /** The set of saved ids (`savedCourseIds`). */
  function SavedCourseIds(s: seq<Entry>): (ids: set<int>)
    ensures forall c :: c in ids <==> FindIndex(s, c) >= 0
  {
    set i | 0 <= i < |s| :: s[i].courseId
  }

  /** `isSaved`: membership in the saved-id set. */
  function IsSaved(s: seq<Entry>, c: int): (b: bool)
    ensures b <==> exists i :: 0 <= i < |s| && s[i].courseId == c
    ensures b <==> FindIndex(s, c) >= 0
  {
    c in SavedCourseIds(s)
  }

  /** The rank of a saved course. */
  function OrderOf(s: seq<Entry>, c: int): int
    requires IsSaved(s, c)
  {
    s[FindIndex(s, c)].order
  }

  /** Inserts `e` in front of the first element whose rank is not smaller. */
  function Insert(e: Entry, t: seq<Entry>): (r: seq<Entry>)
    ensures |r| == |t| + 1
    ensures multiset(r) == multiset(t) + multiset{e}
  {
    if |t| == 0 then [e]
    else if e.order <= t[0].order then [e] + t
    else
      assert t == [t[0]] + t[1..];
      [t[0]] + Insert(e, t[1..])
  }

  lemma {:induction false} InsertLowerBound(e: Entry, t: seq<Entry>, b: int)
    requires b <= e.order
    requires forall i :: 0 <= i < |t| ==> b <= t[i].order
    ensures forall i :: 0 <= i < |Insert(e, t)| ==> b <= Insert(e, t)[i].order
  {
    if |t| > 0 && e.order > t[0].order {
      InsertLowerBound(e, t[1..], b);
      var r := Insert(e, t);
      assert r == [t[0]] + Insert(e, t[1..]);
    }
  }

  lemma {:induction false} InsertSorted(e: Entry, t: seq<Entry>)
    requires SortedByOrder(t)
    ensures SortedByOrder(Insert(e, t))
  {
    if |t| > 0 && e.order > t[0].order {
      var rest := Insert(e, t[1..]);
      InsertSorted(e, t[1..]);
      InsertLowerBound(e, t[1..], t[0].order);
      var r := [t[0]] + rest;
      assert r == Insert(e, t);
      forall i, j | 0 <= i < j < |r| ensures r[i].order <= r[j].order {
        assert r[j] == rest[j - 1];
        if i > 0 {
          assert r[i] == rest[i - 1];
        }
      }
    }
  }

  /** The copy sorted by ascending `order` with which `savedCourses`, `moveUp`,
      `moveDown` and `reindex` begin. Insertion keeps earlier entries ahead of
      later ones of equal rank, as the stable JavaScript sort does. */
  function SortByOrder(s: seq<Entry>): (r: seq<Entry>)
    ensures |r| == |s|
    ensures multiset(r) == multiset(s)
    ensures SortedByOrder(r)
  {
    if |s| == 0 then []
    else
      var sortedTail := SortByOrder(s[1..]);
      InsertSorted(s[0], sortedTail);
      assert s == [s[0]] + s[1..];
      Insert(s[0], sortedTail)
  }

  /** The course ids of a list of entries, position by position. */
  function Ids(q: seq<Entry>): (ids: seq<int>)
    ensures |ids| == |q|
  {
    seq(|q|, i requires 0 <= i < |q| => q[i].courseId)
  }

  lemma IdsConcat(a: seq<Entry>, b: seq<Entry>)
    ensures Ids(a + b) == Ids(a) + Ids(b)
  {
    var l, r := Ids(a + b), Ids(a) + Ids(b);
    assert |l| == |r|;
    forall m | 0 <= m < |l| ensures l[m] == r[m] {
      if m < |a| {
        assert (a + b)[m] == a[m];
      } else {
        assert (a + b)[m] == b[m - |a|];
      }
    }
  }

  lemma IdsRemoveAt(a: seq<Entry>, k: int)
    requires 0 <= k < |a|
    ensures Ids(RemoveAt(a, k)) == RemoveAt(Ids(a), k)
  {
  }

  /** The saved ids in ascending rank: the order in which the saved list is shown. */
  function SortedIds(s: seq<Entry>): (ids: seq<int>)
    ensures |ids| == |s|
  {
    Ids(SortByOrder(s))
  }

  lemma SortSameMembers(s: seq<Entry>)
    ensures forall x :: x in SortByOrder(s) <==> x in s
  {
    var r := SortByOrder(s);
    forall x ensures x in r <==> x in s {
      assert x in r <==> x in multiset(r);
      assert x in s <==> x in multiset(s);
    }
  }

  lemma {:induction false} InsertStrict(e: Entry, t: seq<Entry>)
    requires StrictlySortedByOrder(t)
    requires forall x :: x in t ==> x.order != e.order
    ensures StrictlySortedByOrder(Insert(e, t))
  {
    if |t| == 0 {
    } else if e.order <= t[0].order {
      assert t[0] in t;
    } else {
      var rest := Insert(e, t[1..]);
      forall x | x in t[1..] ensures x.order != e.order {
        assert x in t;
      }
      InsertStrict(e, t[1..]);
      forall x | x in rest ensures t[0].order < x.order {
        assert x in multiset(rest);
      }
    }
  }

  /** When no two entries share a rank, the sorted copy is strictly increasing. */
  lemma {:induction false} SortStrict(s: seq<Entry>)
    requires DistinctOrders(s)
    ensures StrictlySortedByOrder(SortByOrder(s))
  {
    if |s| > 0 {
      var tail := s[1..];
      assert DistinctOrders(tail) by {
        forall i, j | 0 <= i < |tail| && 0 <= j < |tail| && i != j
          ensures tail[i].order != tail[j].order
        {
          assert tail[i] == s[i + 1] && tail[j] == s[j + 1];
        }
      }
      SortStrict(tail);
      SortSameMembers(tail);
      forall x | x in SortByOrder(tail) ensures x.order != s[0].order {
        var j :| 0 <= j < |tail| && tail[j] == x;
        assert s[j + 1] == x;
      }
      InsertStrict(s[0], SortByOrder(tail));
    }
  }

  lemma {:induction false} StrictGap(r: seq<Entry>, i: int, j: int)
    requires StrictlySortedByOrder(r)
    requires 0 <= i <= j < |r|
    ensures r[j].order - r[i].order >= j - i
    decreases j - i
  {
    if i < j {
      StrictGap(r, i + 1, j);
    }
  }

  /** A strictly increasing list of ranks drawn from `0..|r|-1` is exactly `0, 1, …`. */
  lemma StrictInRangeIsRanked(r: seq<Entry>)
    requires StrictlySortedByOrder(r)
    requires OrdersInRange(r)
    ensures Ranked(r)
  {
    forall k | 0 <= k < |r| ensures r[k].order == k {
      StrictGap(r, 0, k);
      StrictGap(r, k, |r| - 1);
    }
  }

  /** Under dense ranks the sorted copy puts every entry at the position equal
      to its rank. */
  lemma SortedPlacement(s: seq<Entry>)
    requires DenseOrders(s)
    ensures Ranked(SortByOrder(s))
    ensures forall i :: 0 <= i < |s| ==> SortByOrder(s)[s[i].order] == s[i]
  {
    var r := SortByOrder(s);
    SortStrict(s);
    SortSameMembers(s);
    forall k | 0 <= k < |r| ensures 0 <= r[k].order < |r| {
      assert r[k] in r;
      var j :| 0 <= j < |s| && s[j] == r[k];
    }
    StrictInRangeIsRanked(r);
    forall i | 0 <= i < |s| ensures r[s[i].order] == s[i] {
      assert s[i] in s;
      var m :| 0 <= m < |r| && r[m] == s[i];
    }
  }

  /** The sorted view of a dense list is the one sequence that places every
      entry at its rank. */
  lemma SortedViewUnique(s: seq<Entry>, w: seq<Entry>)
    requires DenseOrders(s)
    requires |w| == |s|
    requires forall i :: 0 <= i < |s| ==> w[s[i].order] == s[i]
    ensures SortByOrder(s) == w
  {
    var r := SortByOrder(s);
    SortedPlacement(s);
    SortSameMembers(s);
    forall k | 0 <= k < |r| ensures r[k] == w[k] {
      assert r[k] in r;
      var m :| 0 <= m < |s| && s[m] == r[k];
    }
  }

  /** A list already in rank order is its own sorted view. */
  lemma SortRankedIsSelf(r: seq<Entry>)
    requires Ranked(r)
    ensures SortByOrder(r) == r
  {
    SortedViewUnique(r, r);
  }

  /** The set of ranks in use. */
  function Orders(s: seq<Entry>): set<int> {
    set i | 0 <= i < |s| :: s[i].order
  }

  /** Dense ranks are exactly the numbers `0..|s|-1`. */
  lemma DenseIsPermutation(s: seq<Entry>)
    requires DenseOrders(s)
    ensures forall k :: k in Orders(s) <==> 0 <= k < |s|
  {
    var r := SortByOrder(s);
    SortedPlacement(s);
    SortSameMembers(s);
    forall k | 0 <= k < |s| ensures k in Orders(s) {
      assert r[k] in r;
      var m :| 0 <= m < |s| && s[m] == r[k];
    }
  }

  /** Dropping the head of a strictly sorted list drops exactly that entry. */
  lemma StrictTailMembers(x: seq<Entry>)
    requires StrictlySortedByOrder(x)
    requires |x| > 0
    ensures forall e :: e in x[1..] <==> e in x && e != x[0]
  {
    forall e ensures e in x[1..] <==> e in x && e != x[0] {
      if e in x[1..] {
        var a :| 0 <= a < |x[1..]| && x[1..][a] == e;
        assert x[a + 1] == e;
      }
      if e in x && e != x[0] {
        var b :| 0 <= b < |x| && x[b] == e;
        assert x[1..][b - 1] == e;
      }
    }
  }

  /** Two strictly sorted lists holding the same entries are equal. */
  lemma {:induction false} StrictlySortedUnique(x: seq<Entry>, y: seq<Entry>)
    requires StrictlySortedByOrder(x) && StrictlySortedByOrder(y)
    requires forall e :: e in x <==> e in y
    ensures x == y
  {
    assert |x| == 0 || x[0] in x;
    assert |y| == 0 || y[0] in y;
    if |x| > 0 && |y| > 0 {
      assert x[0] in x;
      var j :| 0 <= j < |y| && y[j] == x[0];
      assert y[0] in y;
      var i :| 0 <= i < |x| && x[i] == y[0];
      assert j == 0;
      StrictTailMembers(x);
      StrictTailMembers(y);
      StrictlySortedUnique(x[1..], y[1..]);
      assert x == [x[0]] + x[1..];
      assert y == [y[0]] + y[1..];
    }
  }

  /** Removing one entry keeps ids and ranks distinct and keeps strict order. */
  lemma RemoveAtKeepsDistinct(s: seq<Entry>, i: int)
    requires 0 <= i < |s|
    ensures DistinctIds(s) ==> DistinctIds(RemoveAt(s, i))
    ensures DistinctOrders(s) ==> DistinctOrders(RemoveAt(s, i))
    ensures StrictlySortedByOrder(s) ==> StrictlySortedByOrder(RemoveAt(s, i))
  {
    var rest := RemoveAt(s, i);
    forall a, b | 0 <= a < |rest| && 0 <= b < |rest| && a != b
      ensures rest[a] == s[if a < i then a else a + 1] && rest[b] == s[if b < i then b else b + 1]
    {
    }
  }

  /** With distinct ranks no entry occurs twice. */
  lemma DistinctOrdersNoDuplicates(s: seq<Entry>)
    requires DistinctOrders(s)
    ensures NoDuplicates(s)
  {
  }

  /** Sorting keeps course ids distinct when ranks are distinct too. */
  lemma SortKeepsDistinctIds(s: seq<Entry>)
    requires DistinctIds(s) && DistinctOrders(s)
    ensures DistinctIds(SortByOrder(s))
  {
    var r := SortByOrder(s);
    SortStrict(s);
    SortSameMembers(s);
    forall a, b | 0 <= a < |r| && 0 <= b < |r| && a != b
      ensures r[a].courseId != r[b].courseId
    {
      assert r[a] in r && r[b] in r;
      var x :| 0 <= x < |s| && s[x] == r[a];
      var y :| 0 <= y < |s| && s[y] == r[b];
      assert r[a].order != r[b].order;
    }
  }

  /** In a valid list the sorted view finds course `s[i].courseId` at position
      `s[i].order`. */
  lemma FindInSorted(s: seq<Entry>, i: int)
    requires Valid(s)
    requires 0 <= i < |s|
    ensures FindIndex(SortByOrder(s), s[i].courseId) == s[i].order
  {
    SortedPlacement(s);
    SortKeepsDistinctIds(s);
  }

  /** The rank of a saved course is its position in the sorted id list. */
  lemma SortedIdsAtOrder(s: seq<Entry>, c: int)
    requires Valid(s)
    requires IsSaved(s, c)
    ensures 0 <= OrderOf(s, c) < |s|
    ensures SortedIds(s)[OrderOf(s, c)] == c
    ensures FindIndex(SortByOrder(s), c) == OrderOf(s, c)
  {
    var i := FindIndex(s, c);
    SortedPlacement(s);
    FindInSorted(s, i);
  }

  /** The sorted id list enumerates the saved ids, each once. */
  lemma SortedIdsEnumerateSaved(s: seq<Entry>)
    ensures |SortedIds(s)| == |s|
    ensures forall c :: c in SortedIds(s) <==> IsSaved(s, c)
    ensures Valid(s) ==> NoDuplicates(SortedIds(s))
  {
    var r := SortByOrder(s);
    SortSameMembers(s);
    forall c ensures c in SortedIds(s) <==> IsSaved(s, c) {
      if c in SortedIds(s) {
        var k :| 0 <= k < |r| && SortedIds(s)[k] == c;
        assert r[k] in r;
        var j :| 0 <= j < |s| && s[j] == r[k];
      }
      if IsSaved(s, c) {
        var j :| 0 <= j < |s| && s[j].courseId == c;
        assert s[j] in s;
        var k :| 0 <= k < |r| && r[k] == s[j];
        assert SortedIds(s)[k] == c;
      }
    }
    if Valid(s) {
      SortKeepsDistinctIds(s);
    }
  }

  /** Two valid lists with the same sorted ids have the same sorted view. */
  lemma SortDeterminedByIds(x: seq<Entry>, y: seq<Entry>)
    requires Valid(x) && Valid(y)
    requires SortedIds(x) == SortedIds(y)
    ensures SortByOrder(x) == SortByOrder(y)
  {
    SortedPlacement(x);
    SortedPlacement(y);
    var rx, ry := SortByOrder(x), SortByOrder(y);
    forall k | 0 <= k < |rx| ensures rx[k] == ry[k] {
      assert Ids(rx)[k] == Ids(ry)[k];
    }
  }
}
