// The summary bar above the listing results: the "showing X - Y of N"
// range, the number of active filters, and the sort selector.

module SearchResults {
  import opened Optional
  import Text
  import Seqs
  import SearchParams

  // ---- Result range ----

  /** Results per page: the requested page size, or 20 when it is absent or
      zero. */
  function ItemsPerPage(p: SearchParams.Params): (n: int)
    ensures SearchParams.NumberSet(p.limit) ==> n == p.limit.value
    ensures !SearchParams.NumberSet(p.limit) ==> n == 20
  {
    if SearchParams.NumberSet(p.limit) then p.limit.value else 20
  }

  /** Position of the first result on the page, counting from 1. */
  function StartItem(page: int, perPage: int): int {
    (page - 1) * perPage + 1
  }

  /** Position of the last result on the page, counting from 1. */
  function EndItem(page: int, perPage: int, total: int): (e: int)
    ensures e <= total && e <= page * perPage
    ensures e == total || e == page * perPage
  {
    Seqs.Min(page * perPage, total)
  }

  /** For a page that holds results, the range shown lies inside the results,
      is not empty, and holds at most one page of them: a full page, or what
      is left on the last page. */
  lemma {:induction false} RangeShown(page: int, p: SearchParams.Params, total: int)
    requires total > 0 && page >= 1
    requires p.limit.None? || p.limit.value >= 0
    requires (page - 1) * ItemsPerPage(p) < total
    ensures var n := ItemsPerPage(p);
      var start, end := StartItem(page, n), EndItem(page, n, total);
      && 1 <= start <= end <= total
      && end - start + 1 == Seqs.Min(n, total - (page - 1) * n)
  {
    var n := ItemsPerPage(p);
    PageOffset(page, n);
  }

  /** Where page `page` starts: `page - 1` whole pages in. */
  lemma {:induction false} PageOffset(page: int, n: int)
    requires page >= 1 && n >= 1
    ensures (page - 1) * n >= 0 && page * n == (page - 1) * n + n
  {
  }

  // ---- Active filters ----

  /** The groups of filters the summary counts; the two price bounds are one
      group and so are the two area bounds. */
  datatype FilterGroup = Location | PropertyType | Price | Bedrooms | Bathrooms | Area | Features

  const AllGroups: seq<FilterGroup> := [Location, PropertyType, Price, Bedrooms, Bathrooms, Area, Features]

  /** Whether a group is set: texts and numbers by JavaScript truthiness, the
      type also not when it is "Any Type", the features when there is at
      least one. */
  predicate GroupActive(p: SearchParams.Params, g: FilterGroup) {
    match g
    case Location => SearchParams.TextSet(p.location)
    case PropertyType => SearchParams.TextSet(p.propertyType) && p.propertyType.value != "Any Type"
    case Price => SearchParams.NumberSet(p.priceMin) || SearchParams.NumberSet(p.priceMax)
    case Bedrooms => SearchParams.NumberSet(p.bedrooms)
    case Bathrooms => SearchParams.NumberSet(p.bathrooms)
    case Area => SearchParams.NumberSet(p.minSquareFeet) || SearchParams.NumberSet(p.maxSquareFeet)
    case Features => p.features.Some? && |p.features.value| > 0
  }

  /** How many of the groups `gs` are set. */
  function CountActive(p: SearchParams.Params, gs: seq<FilterGroup>): (n: nat)
    ensures n <= |gs|
  {
    if gs == [] then 0 else Indicator(GroupActive(p, gs[0])) + CountActive(p, gs[1..])
  }

  function Indicator(b: bool): nat { if b then 1 else 0 }

  /** Counts the groups that are set, one check after another. */
  method ActiveFiltersCount(p: SearchParams.Params) returns (count: nat)
    ensures count == CountActive(p, AllGroups)
  {
    count := 0;
    if SearchParams.TextSet(p.location) {
      count := count + 1;
    }
    ghost var counted := Indicator(GroupActive(p, Location));
    assert count == counted;
    if SearchParams.TextSet(p.propertyType) && p.propertyType.value != "Any Type" {
      count := count + 1;
    }
    counted := counted + Indicator(GroupActive(p, PropertyType));
    assert count == counted;
    if SearchParams.NumberSet(p.priceMin) || SearchParams.NumberSet(p.priceMax) {
      count := count + 1;
    }
    counted := counted + Indicator(GroupActive(p, Price));
    assert count == counted;
    if SearchParams.NumberSet(p.bedrooms) {
      count := count + 1;
    }
    counted := counted + Indicator(GroupActive(p, Bedrooms));
    assert count == counted;
    if SearchParams.NumberSet(p.bathrooms) {
      count := count + 1;
    }
    counted := counted + Indicator(GroupActive(p, Bathrooms));
    assert count == counted;
    if SearchParams.NumberSet(p.minSquareFeet) || SearchParams.NumberSet(p.maxSquareFeet) {
      count := count + 1;
    }
    counted := counted + Indicator(GroupActive(p, Area));
    assert count == counted;
    if p.features.Some? && |p.features.value| > 0 {
      count := count + 1;
    }
    counted := counted + Indicator(GroupActive(p, Features));
    assert count == counted;
    GroupsCounted(p);
  }

  /** Counting over all groups adds one indicator per group. */
  lemma {:induction false} GroupsCounted(p: SearchParams.Params)
    ensures CountActive(p, AllGroups)
      == Indicator(GroupActive(p, Location)) + Indicator(GroupActive(p, PropertyType))
       + Indicator(GroupActive(p, Price)) + Indicator(GroupActive(p, Bedrooms))
       + Indicator(GroupActive(p, Bathrooms)) + Indicator(GroupActive(p, Area))
       + Indicator(GroupActive(p, Features))
  {
    var a := AllGroups;
    CountCons(p, [Features]);
    CountCons(p, [Area, Features]);
    CountCons(p, [Bathrooms, Area, Features]);
    CountCons(p, [Bedrooms, Bathrooms, Area, Features]);
    CountCons(p, [Price, Bedrooms, Bathrooms, Area, Features]);
    CountCons(p, [PropertyType, Price, Bedrooms, Bathrooms, Area, Features]);
    CountCons(p, a);
  }

  lemma {:induction false} CountCons(p: SearchParams.Params, gs: seq<FilterGroup>)
    requires gs != []
    ensures CountActive(p, gs) == Indicator(GroupActive(p, gs[0])) + CountActive(p, gs[1..])
  {
  }

  /** Every group is among the seven counted. */
  lemma {:induction false} EveryGroupCounted(g: FilterGroup)
    ensures g in AllGroups
  {
    match g
    case Location => assert AllGroups[0] == g;
    case PropertyType => assert AllGroups[1] == g;
    case Price => assert AllGroups[2] == g;
    case Bedrooms => assert AllGroups[3] == g;
    case Bathrooms => assert AllGroups[4] == g;
    case Area => assert AllGroups[5] == g;
    case Features => assert AllGroups[6] == g;
  }

  lemma {:induction false} CountZeroIff(p: SearchParams.Params, gs: seq<FilterGroup>)
    ensures CountActive(p, gs) == 0 <==> forall g | g in gs :: !GroupActive(p, g)
  {
    if gs != [] {
      CountZeroIff(p, gs[1..]);
      assert forall g | g in gs :: g == gs[0] || g in gs[1..];
    }
  }

  /** At most seven filters are ever reported, and none exactly when no
      group is set. */
  lemma {:induction false} ActiveFiltersBounds(p: SearchParams.Params)
    ensures CountActive(p, AllGroups) <= 7
    ensures CountActive(p, AllGroups) == 0 <==> forall g :: !GroupActive(p, g)
  {
    CountZeroIff(p, AllGroups);
    forall g | GroupActive(p, g)
      ensures g in AllGroups
    {
      EveryGroupCounted(g);
    }
  }

  /** Paging and sorting do not change the filter count. */
  lemma {:induction false} CountIgnoresPaging(p: SearchParams.Params, q: SearchParams.Params, gs: seq<FilterGroup>)
    requires SearchParams.SameFilters(p, q)
    ensures CountActive(p, gs) == CountActive(q, gs)
  {
    if gs != [] {
      CountIgnoresPaging(p, q, gs[1..]);
    }
  }

  // ---- Sorting ----

  /** The request a new sort order sends: the same search, sorted as asked,
      from the first page. */
  function HandleSortChange(p: SearchParams.Params, sortBy: string, sortOrder: Option<string>): (r: SearchParams.Params)
    ensures r.sortBy == Some(sortBy) && r.sortOrder == sortOrder && r.page == Some(1)
    ensures SearchParams.SameFilters(r, p) && r.limit == p.limit
  {
    p.(sortBy := Some(sortBy), sortOrder := sortOrder, page := Some(1))
  }

  /** A new sort order keeps the filter count. */
  lemma {:induction false} SortKeepsCount(p: SearchParams.Params, sortBy: string, sortOrder: Option<string>)
    ensures CountActive(HandleSortChange(p, sortBy, sortOrder), AllGroups) == CountActive(p, AllGroups)
  {
    CountIgnoresPaging(HandleSortChange(p, sortBy, sortOrder), p, AllGroups);
  }

  /** The selector's value: field and direction joined by `-`, newest first
      by default. */
  function SortValue(p: SearchParams.Params): string {
    (if SearchParams.TextSet(p.sortBy) then p.sortBy.value else "createdAt") + "-"
      + (if SearchParams.TextSet(p.sortOrder) then p.sortOrder.value else "desc")
  }

  /** The field and direction a selector value splits into; the direction
      is missing when there is no `-`. */
  function DecodeSort(v: string): (r: (string, Option<string>))
    ensures Text.Count(v, '-') == 0 ==> r == (v, None)
  {
    var parts := Text.Split(v, '-');
    if |parts| > 1 then (parts[0], Some(parts[1]))
    else
      assert '-' !in v by { Text.CountZeroIff(v, '-'); }
      (parts[0], None)
  }

  /** Choosing an option sends a request whose selector shows that option
      again. */
  function ChooseSort(p: SearchParams.Params, v: string): SearchParams.Params {
    var (field, order) := DecodeSort(v);
    HandleSortChange(p, field, order)
  }

  /** A value with one `-` between a non-empty field and a non-empty
      direction survives choosing it. */
  lemma {:induction false} SortRoundTrip(p: SearchParams.Params, v: string, k: nat)
    requires 0 < k < |v| - 1 && v[k] == '-'
    requires forall i :: 0 <= i < |v| && i != k ==> v[i] != '-'
    ensures SortValue(ChooseSort(p, v)) == v
  {
    Text.SplitOnce(v, '-', k);
    Text.Reassemble(v, k);
  }

  /** With no sort requested the selector shows newest first. */
  lemma {:induction false} DefaultSort(p: SearchParams.Params)
    requires !SearchParams.TextSet(p.sortBy) && !SearchParams.TextSet(p.sortOrder)
    ensures SortValue(p) == "createdAt-desc"
  {
  }

  /** The values the selector offers. */
  const SortOptions: seq<string> := ["createdAt-desc", "createdAt-asc", "price-asc", "price-desc",
                                     "squareFeet-desc", "squareFeet-asc", "bedrooms-desc", "bedrooms-asc"]

  /** Each option of the selector survives being chosen. */
  lemma {:induction false} SortOptionsRoundTrip(p: SearchParams.Params, v: string)
    requires v in SortOptions
    ensures SortValue(ChooseSort(p, v)) == v
  {
    if v == "createdAt-desc" || v == "createdAt-asc" {
      SortRoundTrip(p, v, 9);
    } else if v == "price-asc" || v == "price-desc" {
      SortRoundTrip(p, v, 5);
    } else if v == "squareFeet-desc" || v == "squareFeet-asc" {
      SortRoundTrip(p, v, 10);
    } else {
      SortRoundTrip(p, v, 8);
    }
  }
}
