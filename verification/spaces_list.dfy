/** `SpacesListComponent`: the client-side filter over the loaded spaces
    (search text and capacity bounds) and the reset of its settings. */
module SpacesList {
  import opened Text
  import opened Models
  import opened Seqs

  /** The component's filter settings. `onlyActive` is sent to the backend
      when the list is loaded; `startDate` and `endDate` are bound to the
      page but not consulted by the filter. */
  datatype FilterState = FilterState(
    searchTerm: string,
    minCapacity: Option<int>,
    maxCapacity: Option<int>,
    onlyActive: bool,
    startDate: string,
    endDate: string)

  /** The search clause: an empty term lets everything through; otherwise the
      lower-cased name, or the lower-cased description when there is one,
      must contain the lower-cased term. */
  predicate PassesSearch(space: Space, term: string) {
    var needle := Lower(term);
    term == []
    || Contains(Lower(space.name), needle)
    || (space.description.Some? && Contains(Lower(space.description.value), needle))
  }

  /** The capacity clauses: each bound applies whenever it is set, including
      a bound of 0. */
  predicate PassesCapacity(space: Space, minCapacity: Option<int>, maxCapacity: Option<int>) {
    !(minCapacity.Some? && space.capacity < minCapacity.value)
    && !(maxCapacity.Some? && space.capacity > maxCapacity.value)
  }

  /** The callback of `applyFilters`, clause by clause. */
  predicate Keep(st: FilterState, space: Space) {
    if st.searchTerm != [] && !Contains(Lower(space.name), Lower(st.searchTerm))
       && !(space.description.Some? && Contains(Lower(space.description.value), Lower(st.searchTerm)))
    then false
    else if st.minCapacity.Some? && space.capacity < st.minCapacity.value then false
    else if st.maxCapacity.Some? && space.capacity > st.maxCapacity.value then false
    else true
  }

  function KeepTest(st: FilterState): Space -> bool {
    s => Keep(st, s)
  }

  /** `applyFilters()`: the new `filteredSpaces`. */
  function ApplyFilters(spaces: seq<Space>, st: FilterState): seq<Space> {
    Filter(spaces, KeepTest(st))
  }

  /** `clearFilters()`: search and bounds reset, dates blanked, `onlyActive`
      left as it was. */
  function ClearFilters(st: FilterState): FilterState {
    FilterState("", None, None, st.onlyActive, "", "")
  }

  /** The callback is the conjunction of the search and the two capacity
      clauses. */
  lemma KeepIff(st: FilterState, space: Space)
    ensures Keep(st, space)
            <==> PassesSearch(space, st.searchTerm) && PassesCapacity(space, st.minCapacity, st.maxCapacity)
  {
  }

  /** A space without a description can match the search only by its name. */
  lemma SearchWithoutDescription(space: Space, term: string)
    requires space.description.None? && term != []
    ensures PassesSearch(space, term) <==> Contains(Lower(space.name), Lower(term))
  {
  }

  /** `filteredSpaces` keeps exactly the spaces passing every clause. */
  lemma ApplyFiltersMembers(spaces: seq<Space>, st: FilterState, space: Space)
    ensures space in ApplyFilters(spaces, st)
            <==> space in spaces && PassesSearch(space, st.searchTerm)
                 && PassesCapacity(space, st.minCapacity, st.maxCapacity)
  {
    FilterMembers(spaces, KeepTest(st), space);
    KeepIff(st, space);
  }

  /** `filteredSpaces` is an order-preserving subsequence of `spaces` that
      keeps every occurrence of a passing space. */
  lemma ApplyFiltersOrder(spaces: seq<Space>, st: FilterState, space: Space)
    ensures IsSubsequence(ApplyFilters(spaces, st), spaces)
    ensures multiset(ApplyFilters(spaces, st))[space]
            == if Keep(st, space) then multiset(spaces)[space] else 0
  {
    FilterSubsequence(spaces, KeepTest(st));
    FilterCount(spaces, KeepTest(st), space);
  }

  /** With the settings `clearFilters` leaves, every space is shown. */
  lemma ClearedShowsAll(spaces: seq<Space>, st: FilterState)
    ensures ApplyFilters(spaces, ClearFilters(st)) == spaces
  {
    var cleared := ClearFilters(st);
    forall i | 0 <= i < |spaces|
      ensures KeepTest(cleared)(spaces[i])
    {
    }
    FilterAll(spaces, KeepTest(cleared));
  }

  /** A minimum above the maximum leaves nothing. */
  lemma CrossedBoundsEmpty(spaces: seq<Space>, st: FilterState)
    requires st.minCapacity.Some? && st.maxCapacity.Some?
    requires st.minCapacity.value > st.maxCapacity.value
    ensures ApplyFilters(spaces, st) == []
  {
    forall i | 0 <= i < |spaces|
      ensures !KeepTest(st)(spaces[i])
    {
    }
    FilterNone(spaces, KeepTest(st));
  }

  /** Re-filtering the filtered list with the same settings changes nothing. */
  lemma ApplyFiltersIdempotent(spaces: seq<Space>, st: FilterState)
    ensures ApplyFilters(ApplyFilters(spaces, st), st) == ApplyFilters(spaces, st)
  {
    FilterIdempotent(spaces, KeepTest(st));
  }

  /** `tight` constrains at least as much as `loose`: the same search term, a
      minimum set whenever `loose` sets one and no lower, and a maximum set
      whenever `loose` sets one and no higher. */
  predicate Tighter(tight: FilterState, loose: FilterState) {
    tight.searchTerm == loose.searchTerm
    && (loose.minCapacity.Some? ==> tight.minCapacity.Some? && tight.minCapacity.value >= loose.minCapacity.value)
    && (loose.maxCapacity.Some? ==> tight.maxCapacity.Some? && tight.maxCapacity.value <= loose.maxCapacity.value)
  }

  /** Tightening a bound never adds a space: the tighter result is a
      subsequence of the looser one. */
  lemma TighteningNeverAdds(spaces: seq<Space>, tight: FilterState, loose: FilterState)
    requires Tighter(tight, loose)
    ensures IsSubsequence(ApplyFilters(spaces, tight), ApplyFilters(spaces, loose))
  {
    forall s | KeepTest(tight)(s)
      ensures KeepTest(loose)(s)
    {
    }
    FilterMonotone(spaces, KeepTest(loose), KeepTest(tight));
  }
}
