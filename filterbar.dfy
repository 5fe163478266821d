/** The filter bar: the search box and the filter options, replaced wholesale on every
    change (`{...filters, ...newFilters}`) and reset by "clear". */
module FilterBar {
  import opened Wrappers

  datatype Status = All | CompletedOnly | PendingOnly | OverdueOnly
  datatype SortBy = ByCreatedAt | ByDueDate | ByTitle
  datatype SortOrder = Asc | Desc

  datatype Filters = Filters(category: string, status: Status, sortBy: SortBy, sortOrder: SortOrder)

  /** The component's state: the search query and the filter options. */
  datatype BarState = BarState(query: string, filters: Filters)

  /** A `Partial<FilterOptions>`: `None` for a key the update does not carry. */
  datatype Patch = Patch(category: Option<string>, status: Option<Status>, sortBy: Option<SortBy>, sortOrder: Option<SortOrder>)

  const Defaults := Filters("", All, ByCreatedAt, Desc)

  /** The state `useState` starts from. */
  const Initial := BarState("", Defaults)

  const NoChange := Patch(None, None, None, None)

  /** `{ ...filters, ...newFilters }`: a supplied key overwrites, an absent one is kept. */
  function Merge(f: Filters, p: Patch): Filters {
    Filters(p.category.GetOr(f.category), p.status.GetOr(f.status),
            p.sortBy.GetOr(f.sortBy), p.sortOrder.GetOr(f.sortOrder))
  }

  /** `handleFilterChange(newFilters)`: the query stays, the options are merged; the
      merged options are also what `onFilter` receives. */
  function FilterChange(s: BarState, p: Patch): (r: BarState)
    ensures r.query == s.query
    ensures p.category.Some? ==> r.filters.category == p.category.value
    ensures p.category.None? ==> r.filters.category == s.filters.category
    ensures p.status.Some? ==> r.filters.status == p.status.value
    ensures p.status.None? ==> r.filters.status == s.filters.status
    ensures p.sortBy.Some? ==> r.filters.sortBy == p.sortBy.value
    ensures p.sortBy.None? ==> r.filters.sortBy == s.filters.sortBy
    ensures p.sortOrder.Some? ==> r.filters.sortOrder == p.sortOrder.value
    ensures p.sortOrder.None? ==> r.filters.sortOrder == s.filters.sortOrder
  {
    BarState(s.query, Merge(s.filters, p))
  }

  /** `handleSearch(query)`: only the query changes. */
  function SearchChange(s: BarState, query: string): (r: BarState)
    ensures r.query == query && r.filters == s.filters
  {
    BarState(query, s.filters)
  }

  /** `handleClear`: the query and every option back to their defaults. */
  function Clear(s: BarState): (r: BarState)
    ensures r == Initial
  {
    BarState("", Filters("", All, ByCreatedAt, Desc))
  }

  /** `searchQuery || filters.category || filters.status !== "all"`: a state is inactive
      exactly when it agrees with the initial state on everything except, possibly, the sort
      options. */
  predicate HasActiveFilters(s: BarState)
    ensures !HasActiveFilters(s) <==>
      s == BarState("", Filters("", All, s.filters.sortBy, s.filters.sortOrder))
  {
    s.query != "" || s.filters.category != "" || s.filters.status != All
  }

  /** Two updates in a row are one update in which the later key wins. */
  function Then(p: Patch, q: Patch): Patch {
    Patch(if q.category.Some? then q.category else p.category,
          if q.status.Some? then q.status else p.status,
          if q.sortBy.Some? then q.sortBy else p.sortBy,
          if q.sortOrder.Some? then q.sortOrder else p.sortOrder)
  }

  lemma MergeSequential(s: BarState, p: Patch, q: Patch)
    ensures FilterChange(FilterChange(s, p), q) == FilterChange(s, Then(p, q))
  {
  }

  /** Repeating an update changes nothing more, and an empty update changes nothing. */
  lemma MergeIdempotent(s: BarState, p: Patch)
    ensures FilterChange(FilterChange(s, p), p) == FilterChange(s, p)
    ensures FilterChange(s, NoChange) == s
  {
  }

  /** Clearing leaves no active filter, whatever the state was. */
  lemma ClearDeactivates(s: BarState)
    ensures !HasActiveFilters(Clear(s))
  {
  }

  /** The sort options never make a filter active: states that differ only in them are
      active alike. */
  lemma SortNeverActivates(s: BarState, key: SortBy, order: SortOrder)
    ensures HasActiveFilters(FilterChange(s, Patch(None, None, Some(key), Some(order)))) <==> HasActiveFilters(s)
  {
  }
}
