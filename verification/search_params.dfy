// The listing-search parameters the results page and the pager pass around.

module SearchParams {
  import opened Optional

  /** One search request: every field may be absent. Prices and areas are
      whole numbers; `features` is a list of feature names. */
  datatype Params = Params(
    location: Option<string>,
    propertyType: Option<string>,
    priceMin: Option<int>,
    priceMax: Option<int>,
    bedrooms: Option<int>,
    bathrooms: Option<int>,
    minSquareFeet: Option<int>,
    maxSquareFeet: Option<int>,
    features: Option<seq<string>>,
    page: Option<int>,
    limit: Option<int>,
    sortBy: Option<string>,
    sortOrder: Option<string>)

  /** A request with nothing set. */
  const Empty := Params(None, None, None, None, None, None, None, None, None, None, None, None, None)

  /** Truthiness of an optional text: present and not empty. */
  predicate TextSet(o: Option<string>) { o.Some? && o.value != "" }

  /** Truthiness of an optional number: present and not zero. */
  predicate NumberSet(o: Option<int>) { o.Some? && o.value != 0 }

  /** Two requests ask for the same listings: every filter field agrees
      (paging, page size and sort order may differ). */
  predicate SameFilters(p: Params, q: Params) {
    p.location == q.location && p.propertyType == q.propertyType
    && p.priceMin == q.priceMin && p.priceMax == q.priceMax
    && p.bedrooms == q.bedrooms && p.bathrooms == q.bathrooms
    && p.minSquareFeet == q.minSquareFeet && p.maxSquareFeet == q.maxSquareFeet
    && p.features == q.features
  }
}
