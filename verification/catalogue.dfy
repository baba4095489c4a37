/** The course catalogue the saved list is resolved against: a read-only list
    of course records looked up by id, as `mockCourses.find` does. */
module CourseCatalogue {
  import opened Sequences

  /** A lookup that may find nothing (`undefined` in JavaScript). */
  datatype Option<T> = None | Some(value: T)

  /** The four sub-ratings of a course, each nominally between 0 and 5. */
  datatype CourseRatings = CourseRatings(reward: real, score: real, easiness: real, teacherStyle: real)

  datatype Course = Course(id: int, name: string, teacher: string, tags: seq<string>, ratings: CourseRatings)

  /** The catalogue holds a record for `id`. */
  ghost predicate Lists(catalogue: seq<Course>, id: int) {
    exists i :: 0 <= i < |catalogue| && catalogue[i].id == id
  }

  /** `Array.prototype.find` on the id: the first record with that id, if any. */
  function FindCourse(catalogue: seq<Course>, id: int): (r: Option<Course>)
    ensures r.None? <==> !Lists(catalogue, id)
    ensures r.Some? ==> r.value.id == id
    ensures r.Some? ==> exists i :: 0 <= i < |catalogue| && catalogue[i] == r.value
                          && forall j :: 0 <= j < i ==> catalogue[j].id != id
  {
    if |catalogue| == 0 then None
    else if catalogue[0].id == id then Some(catalogue[0])
    else
      var r := FindCourse(catalogue[1..], id);
      assert r.Some? ==> exists i :: 0 < i < |catalogue| && catalogue[i] == r.value
                           && forall j :: 0 <= j < i ==> catalogue[j].id != id by {
        if r.Some? {
          var i :| 0 <= i < |catalogue[1..]| && catalogue[1..][i] == r.value
                   && forall j :: 0 <= j < i ==> catalogue[1..][j].id != id;
          assert catalogue[i + 1] == r.value;
          forall j | 0 <= j < i + 1 ensures catalogue[j].id != id {
            if j > 0 {
              assert catalogue[j] == catalogue[1..][j - 1];
            }
          }
        }
      }
      assert forall i :: 0 < i < |catalogue| ==> catalogue[i] == catalogue[1..][i - 1];
      r
  }

  /** The ids of a list of records, position by position. */
  function CourseIds(cs: seq<Course>): (ids: seq<int>)
    ensures |ids| == |cs|
  {
    seq(|cs|, i requires 0 <= i < |cs| => cs[i].id)
  }

  /** The `.filter(c => c !== undefined)` step: the found records, in order. */
  function KeepFound(found: seq<Option<Course>>): (r: seq<Course>)
    ensures |r| <= |found|
    ensures forall x :: x in r <==> Some(x) in found
    ensures (forall i :: 0 <= i < |found| ==> found[i].Some?) ==>
              |r| == |found| && forall i :: 0 <= i < |r| ==> Some(r[i]) == found[i]
  {
    if |found| == 0 then []
    else
      var rest := KeepFound(found[1..]);
      assert forall x :: x in found <==> x == found[0] || x in found[1..] by {
        assert found == [found[0]] + found[1..];
      }
      assert forall i :: 1 <= i < |found| ==> found[i] == found[1..][i - 1];
      match found[0]
      case Some(course) => [course] + rest
      case None => rest
  }

  /** Filtering distributes over concatenation: the records found in `a ++ b`
      are those found in `a` followed by those found in `b`. */
  lemma {:induction false} KeepFoundConcat(a: seq<Option<Course>>, b: seq<Option<Course>>)
    ensures KeepFound(a + b) == KeepFound(a) + KeepFound(b)
  {
    if |a| > 0 {
      assert (a + b)[1..] == a[1..] + b;
      KeepFoundConcat(a[1..], b);
    } else {
      assert a + b == b;
    }
  }

  /** One lookup per id, in order (the `.map(... find ...)` step). */
  function Lookups(ids: seq<int>, catalogue: seq<Course>): (found: seq<Option<Course>>)
    ensures |found| == |ids|
    ensures forall i :: 0 <= i < |ids| ==> (found[i].None? <==> !Lists(catalogue, ids[i]))
    ensures forall i :: 0 <= i < |ids| && found[i].Some? ==>
              found[i].value.id == ids[i] && found[i].value in catalogue
  {
    seq(|ids|, i requires 0 <= i < |ids| => FindCourse(catalogue, ids[i]))
  }

  /** Looks every id up and keeps the records that were found. */
  function Resolve(ids: seq<int>, catalogue: seq<Course>): (r: seq<Course>)
    ensures |r| <= |ids|
    ensures forall i :: 0 <= i < |r| ==> r[i] in catalogue && r[i].id in ids
    ensures forall i :: 0 <= i < |r| ==> FindCourse(catalogue, r[i].id) == Some(r[i])
  {
    var found := Lookups(ids, catalogue);
    var r := KeepFound(found);
    assert forall i :: 0 <= i < |r| ==> r[i].id in ids && FindCourse(catalogue, r[i].id) == Some(r[i]) by {
      forall i | 0 <= i < |r| ensures r[i].id in ids && FindCourse(catalogue, r[i].id) == Some(r[i]) {
        var j :| 0 <= j < |found| && found[j] == Some(r[i]);
        assert FindCourse(catalogue, ids[j]) == Some(r[i]);
      }
    }
    r
  }

  /** Reference definition: the ids the catalogue knows, in their given order. */
  ghost function KnownIds(ids: seq<int>, catalogue: seq<Course>): seq<int> {
    if |ids| == 0 then []
    else (if Lists(catalogue, ids[0]) then [ids[0]] else []) + KnownIds(ids[1..], catalogue)
  }

  /** The lookups of a non-empty id list: the first id's lookup, then the rest. */
  lemma LookupsCons(ids: seq<int>, catalogue: seq<Course>)
    requires |ids| > 0
    ensures Lookups(ids, catalogue) == [FindCourse(catalogue, ids[0])] + Lookups(ids[1..], catalogue)
  {
  }

  /** Filtering a list with a known head: the head's record, if any, then the rest. */
  lemma KeepFoundCons(x: Option<Course>, t: seq<Option<Course>>)
    ensures KeepFound([x] + t) == (if x.Some? then [x.value] else []) + KeepFound(t)
  {
    assert ([x] + t)[1..] == t;
  }

  /** The ids of a record followed by more records. */
  lemma CourseIdsCons(c: Course, cs: seq<Course>)
    ensures CourseIds([c] + cs) == [c.id] + CourseIds(cs)
  {
  }

  /** Resolving keeps exactly the known ids, in order, each mapped to the
      catalogue's first record for it. */
  lemma {:induction false} ResolveKeepsKnownIds(ids: seq<int>, catalogue: seq<Course>)
    ensures CourseIds(Resolve(ids, catalogue)) == KnownIds(ids, catalogue)
    ensures forall i :: 0 <= i < |Resolve(ids, catalogue)| ==>
      FindCourse(catalogue, Resolve(ids, catalogue)[i].id) == Some(Resolve(ids, catalogue)[i])
  {
    if |ids| > 0 {
      var head := FindCourse(catalogue, ids[0]);
      LookupsCons(ids, catalogue);
      KeepFoundCons(head, Lookups(ids[1..], catalogue));
      ResolveKeepsKnownIds(ids[1..], catalogue);
      var rest := Resolve(ids[1..], catalogue);
      var r := Resolve(ids, catalogue);
      if head.Some? {
        assert r == [head.value] + rest;
        CourseIdsCons(head.value, rest);
      } else {
        assert r == rest;
      }
    }
  }

  /** When every id is known, nothing is dropped. */
  lemma {:induction false} KnownIdsAllListed(ids: seq<int>, catalogue: seq<Course>)
    requires forall d :: d in ids ==> Lists(catalogue, d)
    ensures KnownIds(ids, catalogue) == ids
  {
    if |ids| > 0 {
      assert ids[0] in ids;
      assert forall d :: d in ids[1..] ==> d in ids;
      KnownIdsAllListed(ids[1..], catalogue);
      assert ids == [ids[0]] + ids[1..];
    }
  }

  /** When only the id at position `k` is unknown, exactly that one is dropped. */
  lemma {:induction false} KnownIdsDropOne(ids: seq<int>, catalogue: seq<Course>, k: int)
    requires 0 <= k < |ids|
    requires !Lists(catalogue, ids[k])
    requires forall j :: 0 <= j < |ids| && j != k ==> Lists(catalogue, ids[j])
    ensures KnownIds(ids, catalogue) == RemoveAt(ids, k)
  {
    if k == 0 {
      forall d | d in ids[1..] ensures Lists(catalogue, d) {
        var j :| 0 <= j < |ids[1..]| && ids[1..][j] == d;
        assert ids[j + 1] == d;
      }
      KnownIdsAllListed(ids[1..], catalogue);
      assert RemoveAt(ids, 0) == ids[1..];
    } else {
      assert ids[1..][k - 1] == ids[k];
      forall j | 0 <= j < |ids[1..]| && j != k - 1 ensures Lists(catalogue, ids[1..][j]) {
        assert ids[1..][j] == ids[j + 1];
      }
      KnownIdsDropOne(ids[1..], catalogue, k - 1);
      assert RemoveAt(ids, k) == [ids[0]] + RemoveAt(ids[1..], k - 1);
    }
  }
}
