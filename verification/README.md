# Saved-courses registry, modelled in Dafny

This project models the saved-courses registry of the NCU-TLDR course-review front end. The registry is the
`useSavedCourses` composable. It keeps the user's saved courses as a list of `{courseId, order}` entries and offers:

- a membership query (`isSaved`, through the `savedCourseIds` set);
- `toggleSave`, which removes a saved course and renumbers the rest (`reindex`), or appends an unsaved one at the
  end;
- `moveUp` / `moveDown`, which swap a course's `order` with its neighbour's in rank order;
- the derived view `savedCourses`, which sorts the entries by `order`, looks each id up in the course catalogue and
  silently drops ids the catalogue lacks.

The model is functional. The reactive `ref` becomes a `seq<Entry>` that each operation takes and returns, and the
catalogue (`mockCourses` in `useSavedCourses`) becomes a `seq<Course>` parameter. The registry invariant `Valid` has two
parts:

- no course id occurs twice;
- the `order` values are pairwise distinct and lie in `0..n-1`, so they are a permutation of `0..n-1`.

The seed list satisfies it, and every operation preserves it.

Files:

- `sequences.dfy` (module `Sequences`): `RemoveAt` (`splice(i, 1)`) and `SwapAdjacent`.
- `entries.dfy` (module `SavedEntries`): the entry type, the invariant, `findIndex`, `isSaved` and the sort by `order`.
  Its central fact is `SortedPlacement`: under the invariant, the sorted copy holds each entry at the position equal
  to its `order`.
- `catalogue.dfy` (module `CourseCatalogue`): the course record, the `find` lookup, and the map-then-filter resolution.
- `registry.dfy` (module `SavedCourseRegistry`): the seed, `toggleSave`, `reindex`, `moveUp`, `moveDown`,
  `savedCourses`, and the lemmas about them.

`SortedIds(s)` is the list of saved ids in ascending `order`, which is the order the UI shows. Most properties are
stated on it. `moveUp`, `moveDown` and `reindex` store the sorted copy they started from, so the physical position of
an entry carries no meaning; only `order` does. The model keeps that physical layout exactly, and `MoveUpIsSwap`,
`MoveDownIsSwap` and `ToggleSaveTwiceRestores` state it. Most other lemmas speak about `SortByOrder`, `SortedIds` and
the set of entries instead of array positions.

## Model

| member | source | states |
|---|---|---|
| SavedEntries.FindIndex | frontend/src/composables/useSavedCourses.ts:33 | `findIndex` on the course id: -1 exactly when no entry has the id; otherwise the first position holding it |
| SavedEntries.SavedCourseIds | frontend/src/composables/useSavedCourses.ts:24-26 | an id is in the saved-id set exactly when the `findIndex` search finds it |
| SavedEntries.IsSaved | frontend/src/composables/useSavedCourses.ts:28-30 | `isSaved(c)` holds exactly when some entry has course id `c`, which is exactly when `findIndex` finds it |
| SavedEntries.SortByOrder | frontend/src/composables/useSavedCourses.ts:18 | the sorted copy is a permutation (same multiset of entries) and is in ascending `order` |
| SavedEntries.SortedPlacement | frontend/src/composables/useSavedCourses.ts:47-48 | under dense orders the sorted copy holds order `k` at position `k`, and each entry sits at the position equal to its `order` |
| SavedEntries.SortedViewUnique | frontend/src/composables/useSavedCourses.ts:18 | under dense orders the sorted copy is the one sequence that places every entry at its `order`, so ties or ambiguity cannot arise |
| SavedEntries.DenseIsPermutation | frontend/src/composables/useSavedCourses.ts:72-78 | distinct orders within `0..n-1` use every number of `0..n-1`: the set of orders is exactly `0..n-1` |
| SavedEntries.StrictlySortedUnique | frontend/src/composables/useSavedCourses.ts:18 | two lists in strictly ascending `order` that hold the same entries are equal |
| SavedEntries.SortedIdsAtOrder | frontend/src/composables/useSavedCourses.ts:47-48 | in a valid list the index `findIndex` returns on the sorted copy is the course's `order`, and the sorted ids hold the course there |
| SavedEntries.SortedIdsEnumerateSaved | frontend/src/composables/useSavedCourses.ts:24-26 | the sorted id list has one element per entry; its elements are exactly the saved ids; under the invariant it has no duplicates |
| SavedEntries.SortDeterminedByIds | frontend/src/composables/useSavedCourses.ts:18 | two valid lists with the same sorted ids have the same sorted copy, so the sorted ids determine every course's `order` |
| SavedCourseRegistry.SeedValid | frontend/src/composables/useSavedCourses.ts:10-14 | the seed (courses 1, 3, 5 with orders 0, 1, 2) satisfies the invariant and is already in rank order |
| SavedCourseRegistry.SwapOrders | frontend/src/composables/useSavedCourses.ts:51-55 | the swap exchanges the two neighbours' `order` values, keeps every id in place and changes no other entry |
| SavedCourseRegistry.Reindex | frontend/src/composables/useSavedCourses.ts:72-78 | `reindex` keeps the entry count and leaves every entry's `order` equal to its position, so the orders are exactly `0..n-1` |
| SavedCourseRegistry.ReindexKeepsSortedIds | frontend/src/composables/useSavedCourses.ts:72-78 | `reindex` keeps the saved ids in their relative order and leaves dense orders; it keeps the invariant when ids and orders were distinct |
| SavedCourseRegistry.ToggleSave | frontend/src/composables/useSavedCourses.ts:32-44 | `toggleSave` shortens the list by one when the course was saved and lengthens it by one when it was not |
| SavedCourseRegistry.ToggleSaveAppends | frontend/src/composables/useSavedCourses.ts:38-43 | adding an absent id keeps every existing entry, appends `{c, n}`, keeps the invariant, and puts `c` last in the sorted ids |
| SavedCourseRegistry.SortAfterRemove | frontend/src/composables/useSavedCourses.ts:35 | after the `splice`, the sorted copy is the old sorted copy without the removed entry |
| SavedCourseRegistry.ToggleSaveRemoves | frontend/src/composables/useSavedCourses.ts:33-37 | removing a saved id renumbers the rest `0..n-2`, keeps the invariant, and keeps the other ids in their relative order |
| SavedCourseRegistry.ToggleSaveKeepsValid | frontend/src/composables/useSavedCourses.ts:32-44 | `toggleSave` preserves the invariant on both paths |
| SavedCourseRegistry.ToggleSaveFlips | frontend/src/composables/useSavedCourses.ts:32-44 | `toggleSave(c)` flips `isSaved(c)` and leaves the membership of every other id unchanged |
| SavedCourseRegistry.ToggleSaveTwiceMovesToEnd | frontend/src/composables/useSavedCourses.ts:32-44 | toggling a saved course twice keeps it saved but moves it to the end of the sorted ids |
| SavedCourseRegistry.ToggleSaveTwiceRestores | frontend/src/composables/useSavedCourses.ts:32-44 | toggling an unsaved course twice gives back the same entries, laid out in rank order |
| SavedCourseRegistry.MoveUp | frontend/src/composables/useSavedCourses.ts:46-57 | `moveUp` keeps the entry count, and does nothing to a list that does not hold the course |
| SavedCourseRegistry.MoveDown | frontend/src/composables/useSavedCourses.ts:59-70 | `moveDown` keeps the entry count, and does nothing to a list that does not hold the course |
| SavedCourseRegistry.MoveUpNoOp | frontend/src/composables/useSavedCourses.ts:46-50 | `moveUp` leaves the list untouched when the course is absent or already first |
| SavedCourseRegistry.MoveDownNoOp | frontend/src/composables/useSavedCourses.ts:59-63 | `moveDown` leaves the list untouched when the course is absent or already last |
| SavedCourseRegistry.MoveUpIsSwap | frontend/src/composables/useSavedCourses.ts:46-56 | a `moveUp` that moves stores the sorted copy with the `order` fields at sorted positions k-1 and k exchanged, where k is the course's rank |
| SavedCourseRegistry.MoveDownIsSwap | frontend/src/composables/useSavedCourses.ts:59-69 | a `moveDown` that moves stores the sorted copy with the `order` fields at sorted positions k and k+1 exchanged, where k is the course's rank |
| SavedCourseRegistry.MoveUpSwaps | frontend/src/composables/useSavedCourses.ts:46-57 | a `moveUp` that moves keeps the invariant; the new sorted ids are the old ones with the course and its predecessor swapped |
| SavedCourseRegistry.MoveUpChangesOnlyPair | frontend/src/composables/useSavedCourses.ts:51-56 | a `moveUp` that moves gives the course `order` k-1 and its predecessor `order` k, and leaves every other entry as it was |
| SavedCourseRegistry.MoveDownSwaps | frontend/src/composables/useSavedCourses.ts:59-70 | a `moveDown` that moves keeps the invariant; the new sorted ids are the old ones with the course and its successor swapped |
| SavedCourseRegistry.MoveDownChangesOnlyPair | frontend/src/composables/useSavedCourses.ts:64-69 | a `moveDown` that moves gives the course `order` k+1 and its successor `order` k, and leaves every other entry as it was |
| SavedCourseRegistry.MoveUpRank | frontend/src/composables/useSavedCourses.ts:46-57 | a `moveUp` that moves raises the course by exactly one place |
| SavedCourseRegistry.MoveDownRank | frontend/src/composables/useSavedCourses.ts:59-70 | a `moveDown` that moves lowers the course by exactly one place |
| SavedCourseRegistry.MoveUpThenDown | frontend/src/composables/useSavedCourses.ts:46-70 | a `moveUp` that moves, followed by `moveDown`, restores the original sorted copy and sorted ids |
| SavedCourseRegistry.MoveDownThenUp | frontend/src/composables/useSavedCourses.ts:46-70 | a `moveDown` that moves, followed by `moveUp`, restores the original sorted copy and sorted ids |
| SavedCourseRegistry.MovesKeepValid | frontend/src/composables/useSavedCourses.ts:46-70 | `moveUp` and `moveDown` preserve the invariant, whether or not they move |
| SavedCourseRegistry.SavedCourses | frontend/src/composables/useSavedCourses.ts:17-22 | `savedCourses` has at most one record per entry, and each record comes from the catalogue and belongs to a saved id |
| SavedCourseRegistry.SavedCoursesInRankOrder | frontend/src/composables/useSavedCourses.ts:17-22 | the ids of `savedCourses` are the sorted ids filtered to those the catalogue lists, in the same relative order; each record is the catalogue's first record for its id |
| SavedCourseRegistry.SavedCoursesAllKnown | frontend/src/composables/useSavedCourses.ts:17-22 | when the catalogue lists every saved id, `savedCourses` has one record per entry, in rank order |
| SavedCourseRegistry.SavedCoursesDropsMissing | frontend/src/composables/useSavedCourses.ts:17-22 | when the catalogue lacks exactly one saved id, `savedCourses` is one shorter and lists the others in rank order |
| CourseCatalogue.FindCourse | frontend/src/composables/useSavedCourses.ts:20 | `mockCourses.find` by id: nothing exactly when no record has the id; otherwise the first record with that id |
| CourseCatalogue.Lookups | frontend/src/composables/useSavedCourses.ts:20 | one lookup per id: a lookup finds nothing exactly when the catalogue lacks that id, and otherwise yields a catalogue record carrying that id |
| CourseCatalogue.KeepFound | frontend/src/composables/useSavedCourses.ts:21 | the `undefined` filter keeps a record exactly when some lookup found it; when every lookup succeeded it keeps all of them, one for one and in order |
| CourseCatalogue.KeepFoundConcat | frontend/src/composables/useSavedCourses.ts:21 | the filter distributes over concatenation, so the found records keep the relative order of their lookups |
| CourseCatalogue.Resolve | frontend/src/composables/useSavedCourses.ts:20-21 | the map-then-filter returns at most one record per id, each a catalogue record for one of the ids and the catalogue's first record with its id |
| CourseCatalogue.ResolveKeepsKnownIds | frontend/src/composables/useSavedCourses.ts:20-21 | the map-then-filter keeps exactly the ids the catalogue lists, in their given order, each mapped to its first catalogue record |
| CourseCatalogue.KnownIdsDropOne | frontend/src/composables/useSavedCourses.ts:21 | when only one id is missing from the catalogue, the filter drops exactly that id |

## Left out

- Vue reactivity (`ref`, `computed`) and the module-level singleton shared by every `useSavedCourses()` call. State
  is an explicit value passed in and returned, and computed views are functions recomputed on demand.
- JavaScript numbers are modelled as unbounded integers. Ids and orders in `useSavedCourses` are small integers, so the
  comparator `a.order - b.order` cannot overflow or produce NaN, and the model does not cover fractional or non-finite
  values.
- SortByOrder: its contract states only that the result is a permutation in ascending `order`, not that the sort is
  stable. The definition is a stable insertion sort, as JavaScript's sort is. Under the invariant orders are distinct,
  and `SortedViewUnique` shows the result is then unique, so stability makes no difference there.
- The physical array layout after `moveUp`/`moveDown`/`reindex` is modelled exactly. Only some lemmas state it:
  `MoveUpIsSwap`, `MoveDownIsSwap` and `ToggleSaveTwiceRestores` give the stored list itself. The remaining lemmas
  (for example `MoveUpThenDown`) speak about the sorted copy, the sorted ids and the set of entries, because only
  `order` carries meaning and a round trip through the moves restores the ranks but not the storage layout.
- Rating aggregation and pie-chart arcs (weighted overall score, clamping, percentage-to-angle). That logic lives in
  the Vue components `CourseStarEvaluation.vue` and `GradingPieChart.vue`, which this model does not cover; it is
  floating-point display arithmetic, separate from the saved-courses registry.
- Component and view tests, router configuration (`scrollBehavior`), backend SQLAlchemy models and the database
  session. They are configuration, rendering or I/O with no registry logic.
- Mock fixtures (`mockCourses`, the wish list). The catalogue is a parameter of `SavedCourses`, so any catalogue,
  including the mock one, can be passed in.
