/**
 * The filter panel of ui/components/SearchFilters.tsx: `handleCategoryToggle`, which adds a
 * category to the selection or removes it, and `hasActiveFilters`.
 */
module CategoryToggle {
  import opened Collections
  import opened Text
  import opened KnowledgeGraph
  import opened Filters
  import opened Matching

  /** `selected.filter(c => c !== category)`. */
  function Without(selected: seq<string>, category: string): seq<string> {
    if selected == [] then []
    else (if selected[0] != category then [selected[0]] else []) + Without(selected[1..], category)
  }

  /** Removal drops every occurrence of the category and keeps the others in order. */
  lemma {:induction false} WithoutSubsequence(selected: seq<string>, category: string)
    ensures category !in Without(selected, category)
    ensures IsSubsequence(Without(selected, category), selected)
  {
    if selected != [] {
      var rest := Without(selected[1..], category);
      WithoutSubsequence(selected[1..], category);
      if selected[0] != category {
        assert ([selected[0]] + rest)[1..] == rest;
      } else {
        assert Without(selected, category) == rest;
        assert IsSubsequence(rest, selected[1..]);
      }
    }
  }

  /** Every category other than the removed one keeps its number of occurrences. */
  lemma {:induction false} WithoutCounts(selected: seq<string>, category: string, x: string)
    requires x != category
    ensures multiset(Without(selected, category))[x] == multiset(selected)[x]
  {
    if selected != [] {
      WithoutCounts(selected[1..], category, x);
      assert selected == [selected[0]] + selected[1..];
      assert multiset(selected) == multiset{selected[0]} + multiset(selected[1..]);
    }
  }

  lemma WithoutSpec(selected: seq<string>, category: string)
    ensures var r := Without(selected, category);
      category !in r && IsSubsequence(r, selected) &&
      forall x :: x != category ==> multiset(r)[x] == multiset(selected)[x]
  {
    WithoutSubsequence(selected, category);
    forall x | x != category ensures multiset(Without(selected, category))[x] == multiset(selected)[x] {
      WithoutCounts(selected, category, x);
    }
  }

  /** `filter(Boolean)` on strings is this filter with the empty string as the category. */
  lemma {:induction false} NonEmptyIsWithout(s: seq<string>)
    ensures NonEmpty(s) == Without(s, "")
  {
    if s != [] {
      NonEmptyIsWithout(s[1..]);
    }
  }

  /** The new selection computed by `handleCategoryToggle`. */
  function Toggle(selected: seq<string>, category: string): seq<string> {
    if category in selected then Without(selected, category) else selected + [category]
  }

  /**
   * An absent category is appended and the rest is unchanged; a present one is removed with all
   * its occurrences, the others keeping their order and multiplicity. Either way membership of
   * the toggled category flips and membership of every other category is unchanged.
   */
  lemma ToggleSpec(selected: seq<string>, category: string)
    ensures var r := Toggle(selected, category);
      (category !in selected ==> r == selected + [category]) &&
      (category in selected ==>
         IsSubsequence(r, selected) && forall x :: x != category ==> multiset(r)[x] == multiset(selected)[x]) &&
      (category in r <==> category !in selected) &&
      forall x :: x != category ==> (x in r <==> x in selected)
  {
    WithoutSpec(selected, category);
    var r := Toggle(selected, category);
    forall x | x != category ensures x in r <==> x in selected {
      assert x in r <==> x in multiset(r);
      assert x in selected <==> x in multiset(selected);
    }
  }

  lemma {:induction false} WithoutAppendAbsent(selected: seq<string>, category: string)
    requires category !in selected
    ensures Without(selected + [category], category) == selected
  {
    if selected == [] {
      assert Without([category], category) == [] + Without([], category);
    } else {
      assert (selected + [category])[1..] == selected[1..] + [category];
      WithoutAppendAbsent(selected[1..], category);
    }
  }

  /** Toggling an absent category twice gives back the original selection. */
  lemma ToggleTwiceAbsent(selected: seq<string>, category: string)
    requires category !in selected
    ensures Toggle(Toggle(selected, category), category) == selected
  {
    WithoutAppendAbsent(selected, category);
  }

  lemma {:induction false} WithoutDistinct(selected: seq<string>, category: string)
    requires Distinct(selected)
    ensures Distinct(Without(selected, category))
  {
    if selected != [] {
      var rest := Without(selected[1..], category);
      WithoutDistinct(selected[1..], category);
      WithoutSpec(selected[1..], category);
      if selected[0] != category && selected[0] in rest {
        SubsequenceElements(rest, selected[1..], selected[0]);
      }
    }
  }

  /** A duplicate-free selection stays duplicate-free under toggling. */
  lemma ToggleDistinct(selected: seq<string>, category: string)
    requires Distinct(selected)
    ensures Distinct(Toggle(selected, category))
  {
    if category in selected {
      WithoutDistinct(selected, category);
    }
  }

  /** `handleCategoryToggle`: hands the toggled selection to `setSelectedCategories`. */
  method HandleCategoryToggle(provider: FilterProvider, category: string)
    modifies provider
    ensures provider.filters.selectedCategories == Toggle(old(provider.filters.selectedCategories), category)
    ensures provider.filters.searchTerm == old(provider.filters.searchTerm)
    ensures provider.filters.selectedQuadrants == old(provider.filters.selectedQuadrants)
  {
    var newCategories := Toggle(provider.filters.selectedCategories, category);
    provider.SetSelectedCategories(newCategories);
  }

  /** `filters.searchTerm || filters.selectedCategories.length > 0`, read as a truth value. */
  predicate HasActiveFilters(filters: FilterState) {
    filters.searchTerm != "" || |filters.selectedCategories| > 0
  }

  /**
   * Without active filters the list shows every member in order; the initial and the cleared
   * state have none.
   */
  lemma InactiveFiltersShowAll(materials: seq<Member>, filters: FilterState)
    requires !HasActiveFilters(filters)
    ensures FilterMaterials(materials, filters.searchTerm, filters.selectedCategories) == materials
    ensures !HasActiveFilters(InitialFilters)
  {
    FilterInactive(materials);
  }
}
