/**
 * The shared filter state of ui/contexts/FilterContext.tsx: one `filters` cell held by the
 * provider, replaced field by field by its setters and reset by `clearAllFilters`.
 */
module Filters {
  import opened Wrappers

  datatype FilterState = FilterState(
    searchTerm: string,
    selectedQuadrants: seq<string>,
    selectedCategories: seq<string>)

  /** The value the provider starts from and `clearAllFilters` restores. */
  const InitialFilters := FilterState("", [], [])

  const MissingProviderError := "useFilters must be used within a FilterProvider"

  /** `FilterProvider`: the `filters` state cell and the setters it hands to its children. */
  class FilterProvider {
    var filters: FilterState

    constructor ()
      ensures filters.searchTerm == "" && filters.selectedQuadrants == [] && filters.selectedCategories == []
    {
      filters := InitialFilters;
    }

    method SetSearchTerm(term: string)
      modifies this
      ensures filters.searchTerm == term
      ensures filters.selectedQuadrants == old(filters.selectedQuadrants)
      ensures filters.selectedCategories == old(filters.selectedCategories)
    {
      filters := filters.(searchTerm := term);
    }

    method SetSelectedQuadrants(quadrants: seq<string>)
      modifies this
      ensures filters.selectedQuadrants == quadrants
      ensures filters.searchTerm == old(filters.searchTerm)
      ensures filters.selectedCategories == old(filters.selectedCategories)
    {
      filters := filters.(selectedQuadrants := quadrants);
    }

    method SetSelectedCategories(categories: seq<string>)
      modifies this
      ensures filters.selectedCategories == categories
      ensures filters.searchTerm == old(filters.searchTerm)
      ensures filters.selectedQuadrants == old(filters.selectedQuadrants)
    {
      filters := filters.(selectedCategories := categories);
    }

    /** Whatever the prior state, the result is the initial one; so clearing twice is clearing once. */
    method ClearAllFilters()
      modifies this
      ensures filters == InitialFilters
    {
      filters := InitialFilters;
    }
  }

  /** `useFilters`: the context of the enclosing provider, or the error thrown without one. */
  function UseFilters(context: Option<FilterProvider>): (r: Result<FilterProvider, string>)
    ensures r.Ok? <==> context.Some?
    ensures context.Some? ==> r.value == context.value
    ensures context.None? ==> r.error == MissingProviderError
  {
    match context
    case None => Err(MissingProviderError)
    case Some(provider) => Ok(provider)
  }
}
