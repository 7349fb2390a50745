/**
 * The member list of ui/components/CommunityManager.tsx: the `filteredMaterials` predicate
 * (free-text search ANDed with category selection), the nine-per-page slicing, the
 * prev/next page moves, and the initials shown on each card.
 */
module Matching {
  import opened Collections
  import opened Text
  import opened KnowledgeGraph
  import opened Filters

  // ================================================================ matcher

  /** The search step: no term, or the lowered term occurs in the title, description or a keyword. */
  predicate SearchMatches(m: Member, term: string) {
    var t := Lower(term);
    term == "" || Contains(Lower(m.title), t) || Contains(Lower(m.description), t) ||
    (exists k :: 0 <= k < |m.keywords| && Contains(Lower(m.keywords[k]), t))
  }

  /** `[...keywords, programmingLanguage, platform].filter(Boolean)`. */
  function Tags(m: Member): seq<string> {
    NonEmpty(m.keywords + [m.programmingLanguage, m.platform])
  }

  /** The category step: nothing selected, or some selected category equals some tag, ignoring case. */
  predicate CategoryMatches(m: Member, selected: seq<string>) {
    |selected| == 0 || exists c, t :: c in selected && t in Tags(m) && Lower(t) == Lower(c)
  }

  predicate Matches(m: Member, term: string, selected: seq<string>) {
    SearchMatches(m, term) && CategoryMatches(m, selected)
  }

  /** `materials.filter(...)`: a stable filter; `materials` itself is a value and is left as it was. */
  function FilterMaterials(materials: seq<Member>, term: string, selected: seq<string>): (r: seq<Member>)
    ensures IsSubsequence(r, materials)
    ensures forall m :: m in r <==> m in materials && Matches(m, term, selected)
    ensures forall m :: multiset(r)[m] == if Matches(m, term, selected) then multiset(materials)[m] else 0
  {
    if materials == [] then []
    else
      var rest := FilterMaterials(materials[1..], term, selected);
      assert materials == [materials[0]] + materials[1..];
      if Matches(materials[0], term, selected) then [materials[0]] + rest else rest
  }

  /** With no term and no category selected, every member is shown, in order. */
  lemma {:induction false} FilterInactive(materials: seq<Member>)
    ensures FilterMaterials(materials, "", []) == materials
  {
    if materials != [] {
      FilterInactive(materials[1..]);
    }
  }

  /**
   * With no category selected, a member survives exactly when the lowered term occurs in its
   * lowered title, description or some keyword; the empty term occurs everywhere.
   */
  lemma SearchStep(materials: seq<Member>, term: string, m: Member)
    ensures m in FilterMaterials(materials, term, []) <==>
      m in materials &&
      (Contains(Lower(m.title), Lower(term)) || Contains(Lower(m.description), Lower(term)) ||
       (exists k :: 0 <= k < |m.keywords| && Contains(Lower(m.keywords[k]), Lower(term))))
  {
    if term == "" {
      assert Lower(term) == "";
      ContainsEmpty(Lower(m.title));
    }
  }

  /** The empty term passes the search step. */
  lemma EmptyTermMatches(m: Member)
    ensures SearchMatches(m, "")
  {
  }

  lemma CategoryMatchesIff(m: Member, selected: seq<string>)
    requires selected != []
    ensures CategoryMatches(m, selected) <==>
      exists c, t :: c in selected && t in m.keywords + [m.programmingLanguage, m.platform] &&
        t != "" && Lower(t) == Lower(c)
  {
    var all := m.keywords + [m.programmingLanguage, m.platform];
    assert forall t :: t in Tags(m) <==> t in all && t != "";
  }

  /**
   * With categories selected and no term, a member survives exactly when some selected category
   * equals, ignoring case, some non-empty keyword, language or platform of it.
   */
  lemma CategoryStep(materials: seq<Member>, selected: seq<string>, m: Member)
    requires selected != []
    ensures m in FilterMaterials(materials, "", selected) <==>
      m in materials &&
      exists c, t :: c in selected && t in m.keywords + [m.programmingLanguage, m.platform] &&
        t != "" && Lower(t) == Lower(c)
  {
    EmptyTermMatches(m);
    CategoryMatchesIff(m, selected);
  }

  /** No selected category matches an empty tag: the empty language is never a match. */
  lemma EmptyTagNeverMatches(m: Member)
    ensures !CategoryMatches(m, [""])
  {
    forall t | t in Tags(m) ensures Lower(t) != Lower("") {
      assert |Lower(t)| == |t| > 0;
    }
  }

  /** The default platform `NA` survives `filter(Boolean)`, so selecting "na" matches it. */
  lemma PlatformNAMatches(m: Member)
    requires m.platform == "NA"
    ensures CategoryMatches(m, ["na"])
  {
    assert "NA" in Tags(m);
    assert Lower("NA") == "na" == Lower("na");
  }

  /** A stronger predicate filters out a subsequence of what a weaker one keeps. */
  lemma {:induction false} FilterMonotone(materials: seq<Member>, term1: string, selected1: seq<string>,
                                          term2: string, selected2: seq<string>)
    requires forall k :: 0 <= k < |materials| && Matches(materials[k], term1, selected1) ==>
      Matches(materials[k], term2, selected2)
    ensures IsSubsequence(FilterMaterials(materials, term1, selected1), FilterMaterials(materials, term2, selected2))
  {
    if materials != [] {
      var m := materials[0];
      assert forall k :: 0 <= k < |materials[1..]| ==> materials[1..][k] == materials[k + 1];
      FilterMonotone(materials[1..], term1, selected1, term2, selected2);
      var r1 := FilterMaterials(materials[1..], term1, selected1);
      var r2 := FilterMaterials(materials[1..], term2, selected2);
      if Matches(m, term1, selected1) {
        assert ([m] + r1)[1..] == r1 && ([m] + r2)[1..] == r2;
      } else if Matches(m, term2, selected2) {
        assert ([m] + r2)[1..] == r2;
      }
    }
  }

  /** Selecting one category shows a subsequence of what selecting none shows. */
  lemma SelectingNarrows(materials: seq<Member>, term: string, x: string)
    ensures IsSubsequence(FilterMaterials(materials, term, [x]), FilterMaterials(materials, term, []))
  {
    FilterMonotone(materials, term, [x], term, []);
  }

  /** Once some category is selected, selecting one more can only show more. */
  lemma SelectingMoreWidens(materials: seq<Member>, term: string, selected: seq<string>, x: string)
    requires selected != []
    ensures IsSubsequence(FilterMaterials(materials, term, selected), FilterMaterials(materials, term, selected + [x]))
  {
    forall k | 0 <= k < |materials| && Matches(materials[k], term, selected)
      ensures Matches(materials[k], term, selected + [x])
    {
      var c, t :| c in selected && t in Tags(materials[k]) && Lower(t) == Lower(c);
      assert c in selected + [x];
    }
    FilterMonotone(materials, term, selected, term, selected + [x]);
  }

  // ================================================================ pagination

  const ItemsPerPage: nat := 9

  /** `Math.ceil(n / itemsPerPage)`: the fewest pages that hold `n` items. */
  function TotalPages(n: nat): (t: nat)
    ensures n <= t * ItemsPerPage
    ensures t == 0 || (t - 1) * ItemsPerPage < n
  {
    (n + ItemsPerPage - 1) / ItemsPerPage
  }

  /** How `Array.prototype.slice` resolves an index: negatives count from the end, then clamp. */
  function SliceIndex(i: int, len: nat): (k: nat)
    ensures k <= len
  {
    if i < 0 then (if len + i < 0 then 0 else len + i) else if i > len then len else i
  }

  /** `s.slice(start, end)`. */
  function Slice<T>(s: seq<T>, start: int, end: int): seq<T> {
    var a, b := SliceIndex(start, |s|), SliceIndex(end, |s|);
    if a < b then s[a..b] else []
  }

  function Min(a: int, b: int): int {
    if a < b then a else b
  }

  function Max(a: int, b: int): int {
    if a < b then b else a
  }

  /**
   * `currentMaterials`: page `p` holds `filtered[(p-1)*9 .. min(n, p*9))`, at most nine members,
   * and is non-empty for every page from 1 to the page count.
   */
  function PageOf(filtered: seq<Member>, page: int): (r: seq<Member>)
    ensures |r| <= ItemsPerPage
    ensures page >= 1 && (page - 1) * ItemsPerPage <= |filtered| ==>
      r == filtered[(page - 1) * ItemsPerPage..Min(|filtered|, page * ItemsPerPage)]
    ensures page >= 1 && (page - 1) * ItemsPerPage >= |filtered| ==> r == []
    ensures 1 <= page <= TotalPages(|filtered|) ==> r != []
  {
    var startIndex := (page - 1) * ItemsPerPage;
    var endIndex := startIndex + ItemsPerPage;
    Slice(filtered, startIndex, endIndex)
  }

  /** Pages 1 to `k`, one after the other. */
  function Pages(filtered: seq<Member>, k: nat): seq<Member> {
    if k == 0 then [] else Pages(filtered, k - 1) + PageOf(filtered, k)
  }

  /** The pages partition the filtered list: read in order, they give back every member once. */
  lemma {:induction false} PagesCover(filtered: seq<Member>, k: nat)
    ensures Pages(filtered, k) == filtered[..Min(|filtered|, k * ItemsPerPage)]
  {
    if k > 0 {
      PagesCover(filtered, k - 1);
      var n := |filtered|;
      if (k - 1) * ItemsPerPage <= n {
        assert filtered[..Min(n, (k - 1) * ItemsPerPage)] + filtered[(k - 1) * ItemsPerPage..Min(n, k * ItemsPerPage)]
          == filtered[..Min(n, k * ItemsPerPage)];
      }
    }
  }

  lemma AllPages(filtered: seq<Member>)
    ensures Pages(filtered, TotalPages(|filtered|)) == filtered
  {
    PagesCover(filtered, TotalPages(|filtered|));
  }

  /** The list component: the members it was given and the page it shows. */
  class CommunityMembersList {
    const materials: seq<Member>
    var currentPage: int

    constructor (materials: seq<Member>)
      ensures this.materials == materials && currentPage == 1
    {
      this.materials := materials;
      currentPage := 1;
    }

    function FilteredMaterials(filters: FilterState): seq<Member> {
      FilterMaterials(materials, filters.searchTerm, filters.selectedCategories)
    }

    function CurrentMaterials(filters: FilterState): seq<Member>
      reads this
    {
      PageOf(FilteredMaterials(filters), currentPage)
    }

    /** Any change of the filters sends the list back to its first page. */
    method FiltersChanged()
      modifies this
      ensures currentPage == 1
    {
      currentPage := 1;
    }

    /** The previous-page button: `max(1, currentPage - 1)`, which never leaves the page range. */
    method PreviousPage(filters: FilterState)
      modifies this
      ensures currentPage == Max(1, old(currentPage) - 1)
      ensures var total := TotalPages(|FilteredMaterials(filters)|);
        1 <= old(currentPage) <= total ==> 1 <= currentPage <= total
    {
      currentPage := Max(1, currentPage - 1);
    }

    /** The next-page button: `min(totalPages, currentPage + 1)`, which never leaves the page range. */
    method NextPage(filters: FilterState)
      modifies this
      ensures currentPage == Min(TotalPages(|FilteredMaterials(filters)|), old(currentPage) + 1)
      ensures var total := TotalPages(|FilteredMaterials(filters)|);
        1 <= old(currentPage) <= total ==> 1 <= currentPage <= total
    {
      var totalPages := TotalPages(|FilteredMaterials(filters)|);
      currentPage := Min(totalPages, currentPage + 1);
    }

    /** A numbered page button. */
    method SelectPage(page: int)
      modifies this
      ensures currentPage == page
    {
      currentPage := page;
    }
  }

  // ================================================================ initials

  /** `parts.map(n => n[0]).join('')`: `n[0]` of an empty segment is `undefined`, joined as nothing. */
  function FirstChars(parts: seq<string>): (r: string)
    ensures |r| == |NonEmpty(parts)| <= |parts|
    ensures forall k :: 0 <= k < |r| ==> NonEmpty(parts)[k] != "" && r[k] == NonEmpty(parts)[k][0]
  {
    if parts == [] then [] else (if parts[0] != "" then [parts[0][0]] else []) + FirstChars(parts[1..])
  }

  /**
   * `title.split(' ').map(n => n[0]).join('').toUpperCase()`: the upper-cased first characters
   * of the non-empty space-separated segments, in order; hence no space and no lower-case letter.
   */
  function Initials(title: string): (r: string)
    ensures var segments := NonEmpty(Split(title, ' '));
      |r| == |segments| <= |Split(title, ' ')| &&
      forall k :: 0 <= k < |r| ==> segments[k] != "" && r[k] == UpperChar(segments[k][0])
    ensures forall k :: 0 <= k < |r| ==> r[k] != ' ' && !('a' <= r[k] <= 'z')
  {
    var parts := Split(title, ' ');
    var firsts := FirstChars(parts);
    var segments := NonEmpty(parts);
    forall k | 0 <= k < |firsts| ensures firsts[k] != ' ' {
      assert segments[k] in segments;
      var j :| 0 <= j < |parts| && parts[j] == segments[k];
      assert segments[k][0] in parts[j];
    }
    Upper(firsts)
  }
}
