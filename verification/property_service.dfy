/** The property service: conversion between store rows (prices in cents,
    status as the store's enum name) and the listings the pages show (prices
    in dollars, status in kebab case), and the answers each query gives from
    the in-memory listings when the store cannot be reached. The in-memory
    listings are a parameter here. */
module PropertyService {
  import Text
  import Seqs
  import opened Optional

  /** A row of the store. */
  datatype StoredProperty = StoredProperty(
    id: string,
    title: string,
    description: string,
    location: string,
    price: int,          // cents
    bedrooms: int,
    bathrooms: int,
    squareFeet: int,
    imageUrl: string,
    isFeatured: bool,
    status: string,      // FOR_SALE, SOLD, PENDING or OFF_MARKET
    listerId: string,
    createdAt: int,
    updatedAt: int)

  /** A listing as the pages see it. */
  datatype Property = Property(
    id: string,
    title: string,
    location: string,
    price: int,          // whole dollars
    description: string,
    bedrooms: int,
    bathrooms: int,
    squareFeet: int,
    imageUrl: string,
    isFeatured: Option<bool>,
    status: Option<string>,
    createdAt: Option<int>,
    updatedAt: Option<int>)

  /** What `createProperty` is given: a listing without the fields the store
      assigns, plus the lister. */
  datatype NewProperty = NewProperty(
    title: string,
    location: string,
    price: int,
    description: string,
    bedrooms: int,
    bathrooms: int,
    squareFeet: int,
    imageUrl: string,
    isFeatured: Option<bool>,
    status: Option<string>,
    listerId: string)

  /** The statuses as the pages spell them. */
  predicate IsUiStatus(s: string) {
    s == "for-sale" || s == "sold" || s == "pending" || s == "off-market"
  }

  /** `Math.round(cents / 100)`: the nearest whole dollar, a half rounding up. */
  function DisplayPrice(cents: int): (dollars: int)
    ensures 100 * dollars - 50 <= cents < 100 * dollars + 50
  {
    (cents + 50) / 100
  }

  /** The store's status name as the pages write it: lower case, with the
      first `_` turned into `-`. */
  function UiStatus(stored: string): string {
    Text.ReplaceFirst(Text.ToLower(stored), '_', '-')
  }

  /** The status `createProperty` stores: upper case with the first `-`
      turned into `_`, or FOR_SALE when the status is missing or empty. */
  function StoreStatus(status: Option<string>): (r: string)
    ensures status.None? || status.value == "" ==> r == "FOR_SALE"
  {
    if status.None? || status.value == "" then "FOR_SALE"
    else Text.ReplaceFirst(Text.ToUpper(status.value), '-', '_')
  }

  /** `id.slice(-1)`: the last character of the id, empty for an empty id. */
  function LastChar(id: string): (r: string)
    ensures |r| == if id == "" then 0 else 1
    ensures id != "" ==> r == [id[|id| - 1]]
  {
    if id == "" then "" else id[|id| - 1..]
  }

  /** The placeholder picture for a listing without one. */
  function PlaceholderImage(id: string): string {
    "https://picsum.photos/400/250?random=" + LastChar(id)
  }

  /** `transformProperty`. */
  function TransformProperty(p: StoredProperty): (r: Property)
    ensures 100 * r.price - 50 <= p.price < 100 * r.price + 50
    ensures r.imageUrl != ""
    ensures p.imageUrl != "" ==> r.imageUrl == p.imageUrl
    ensures r.id == p.id && r.title == p.title && r.location == p.location && r.description == p.description
    ensures r.bedrooms == p.bedrooms && r.bathrooms == p.bathrooms && r.squareFeet == p.squareFeet
    ensures r.isFeatured == Some(p.isFeatured) && r.status == Some(UiStatus(p.status))
    ensures r.createdAt == Some(p.createdAt) && r.updatedAt == Some(p.updatedAt)
  {
    Property(
      id := p.id,
      title := p.title,
      location := p.location,
      price := DisplayPrice(p.price),
      description := p.description,
      bedrooms := p.bedrooms,
      bathrooms := p.bathrooms,
      squareFeet := p.squareFeet,
      imageUrl := if p.imageUrl != "" then p.imageUrl else PlaceholderImage(p.id),
      isFeatured := Some(p.isFeatured),
      status := Some(UiStatus(p.status)),
      createdAt := Some(p.createdAt),
      updatedAt := Some(p.updatedAt))
  }

  /** The row `createProperty` asks the store to create; the id and the
      timestamps are the ones the store assigns. */
  function CreateRecord(input: NewProperty, id: string, createdAt: int, updatedAt: int): (r: StoredProperty)
    ensures r.price == 100 * input.price
    ensures r.isFeatured == (input.isFeatured == Some(true))
    ensures r.status == StoreStatus(input.status)
    ensures r.title == input.title && r.description == input.description && r.location == input.location
    ensures r.bedrooms == input.bedrooms && r.bathrooms == input.bathrooms && r.squareFeet == input.squareFeet
    ensures r.imageUrl == input.imageUrl && r.listerId == input.listerId
  {
    StoredProperty(
      id := id,
      title := input.title,
      description := input.description,
      location := input.location,
      price := input.price * 100,
      bedrooms := input.bedrooms,
      bathrooms := input.bathrooms,
      squareFeet := input.squareFeet,
      imageUrl := input.imageUrl,
      isFeatured := input.isFeatured == Some(true),
      status := StoreStatus(input.status),
      listerId := input.listerId,
      createdAt := createdAt,
      updatedAt := updatedAt)
  }

  /** `createProperty`: the created row as the pages see it. */
  function CreateProperty(input: NewProperty, id: string, createdAt: int, updatedAt: int): Property {
    TransformProperty(CreateRecord(input, id, createdAt, updatedAt))
  }

  /** A whole-dollar price survives being stored in cents and shown again. */
  lemma {:induction false} PriceRoundTrip(dollars: int)
    ensures DisplayPrice(100 * dollars) == dollars
  {
    var d := DisplayPrice(100 * dollars);
    assert 100 * d - 50 <= 100 * dollars < 100 * d + 50;
  }

  /** A store status name (no lower-case letter, no `-`) comes back from
      being shown and then stored again. */
  lemma {:induction false} StatusFromStoreRoundTrip(stored: string)
    requires stored != ""
    requires forall c | c in stored :: !Text.IsLowerAscii(c)
    requires '-' !in stored
    ensures StoreStatus(Some(UiStatus(stored))) == stored
  {
    var lower := Text.ToLower(stored);
    Text.UpperReplaceFirst(lower, '_', '-');
    Text.UpperUndoesLower(stored);
    Text.ReplaceFirstBack(stored, '_', '-');
  }

  /** A page status (no upper-case letter, no `_`) comes back from being
      stored and then shown again. */
  lemma {:induction false} StatusFromUiRoundTrip(status: string)
    requires status != ""
    requires forall c | c in status :: !Text.IsUpperAscii(c)
    requires '_' !in status
    ensures UiStatus(StoreStatus(Some(status))) == status
  {
    var upper := Text.ToUpper(status);
    Text.LowerReplaceFirst(upper, '-', '_');
    Text.LowerUndoesUpper(status);
    Text.ReplaceFirstBack(status, '-', '_');
  }

  // The four statuses, one spelling at a time.

  /** The page status of `stored`, given its lower-case form `lower` whose
      first `_` is at `k` (`k == |lower|` when there is none). */
  lemma {:induction false} UiStatusOf(stored: string, lower: string, k: nat, shown: string)
    requires |stored| == |lower| && forall i :: 0 <= i < |stored| ==> Text.LowerChar(stored[i]) == lower[i]
    requires k <= |lower| && (k < |lower| ==> lower[k] == '_') && forall i :: 0 <= i < k ==> lower[i] != '_'
    requires |shown| == |lower| && forall i :: 0 <= i < |lower| ==> shown[i] == if i == k then '-' else lower[i]
    ensures UiStatus(stored) == shown
  {
    Text.LowerCaseOf(stored, lower);
    Text.ReplaceFirstOf(lower, '_', '-', k, shown);
  }

  /** The stored status of a non-empty `status`, given its upper-case form
      `upper` whose first `-` is at `k` (`k == |upper|` when there is none). */
  lemma {:induction false} StoreStatusOf(status: string, upper: string, k: nat, stored: string)
    requires status != ""
    requires |status| == |upper| && forall i :: 0 <= i < |status| ==> Text.UpperChar(status[i]) == upper[i]
    requires k <= |upper| && (k < |upper| ==> upper[k] == '-') && forall i :: 0 <= i < k ==> upper[i] != '-'
    requires |stored| == |upper| && forall i :: 0 <= i < |upper| ==> stored[i] == if i == k then '_' else upper[i]
    ensures StoreStatus(Some(status)) == stored
  {
    Text.UpperCaseOf(status, upper);
    Text.ReplaceFirstOf(upper, '-', '_', k, stored);
  }

  lemma {:induction false} ShowForSale()
    ensures UiStatus("FOR_SALE") == "for-sale"
  {
    UiStatusOf("FOR_SALE", "for_sale", 3, "for-sale");
  }

  lemma {:induction false} StoreForSale()
    ensures StoreStatus(Some("for-sale")) == "FOR_SALE"
  {
    StoreStatusOf("for-sale", "FOR-SALE", 3, "FOR_SALE");
  }

  lemma {:induction false} ShowSold()
    ensures UiStatus("SOLD") == "sold"
  {
    UiStatusOf("SOLD", "sold", 4, "sold");
  }

  lemma {:induction false} StoreSold()
    ensures StoreStatus(Some("sold")) == "SOLD"
  {
    StoreStatusOf("sold", "SOLD", 4, "SOLD");
  }

  lemma {:induction false} ShowPending()
    ensures UiStatus("PENDING") == "pending"
  {
    UiStatusOf("PENDING", "pending", 7, "pending");
  }

  lemma {:induction false} StorePending()
    ensures StoreStatus(Some("pending")) == "PENDING"
  {
    StoreStatusOf("pending", "PENDING", 7, "PENDING");
  }

  lemma {:induction false} ShowOffMarket()
    ensures UiStatus("OFF_MARKET") == "off-market"
  {
    UiStatusOf("OFF_MARKET", "off_market", 3, "off-market");
  }

  lemma {:induction false} StoreOffMarket()
    ensures StoreStatus(Some("off-market")) == "OFF_MARKET"
  {
    StoreStatusOf("off-market", "OFF-MARKET", 3, "OFF_MARKET");
  }

  /** The four statuses correspond one to one, in both directions. */
  lemma {:induction false} StatusNamesCorrespond()
    ensures UiStatus("FOR_SALE") == "for-sale" && StoreStatus(Some("for-sale")) == "FOR_SALE"
    ensures UiStatus("SOLD") == "sold" && StoreStatus(Some("sold")) == "SOLD"
    ensures UiStatus("PENDING") == "pending" && StoreStatus(Some("pending")) == "PENDING"
    ensures UiStatus("OFF_MARKET") == "off-market" && StoreStatus(Some("off-market")) == "OFF_MARKET"
  {
    ShowForSale();
    StoreForSale();
    ShowSold();
    StoreSold();
    ShowPending();
    StorePending();
    ShowOffMarket();
    StoreOffMarket();
  }

  /** Creating a listing and reading it back gives the listing that was
      given: the same texts and counts, the same whole-dollar price, the
      status (FOR_SALE, shown as `for-sale`, when none was given),
      `isFeatured` false when none was given, and the picture unless none
      was given. */
  lemma {:induction false} CreateThenShow(input: NewProperty, id: string, createdAt: int, updatedAt: int)
    requires input.status.None? || IsUiStatus(input.status.value)
    ensures var r := CreateProperty(input, id, createdAt, updatedAt);
      && r.id == id
      && r.title == input.title && r.location == input.location && r.description == input.description
      && r.bedrooms == input.bedrooms && r.bathrooms == input.bathrooms && r.squareFeet == input.squareFeet
      && r.price == input.price
      && r.status == Some(if input.status.None? then "for-sale" else input.status.value)
      && r.isFeatured == Some(input.isFeatured == Some(true))
      && (input.imageUrl != "" ==> r.imageUrl == input.imageUrl)
      && (input.imageUrl == "" ==> r.imageUrl == PlaceholderImage(id))
      && r.createdAt == Some(createdAt) && r.updatedAt == Some(updatedAt)
  {
    PriceRoundTrip(input.price);
    StatusRoundTrip(input.status);
  }

  /** A page status given to `createProperty`, or none, reads back as given,
      or as `for-sale`. */
  lemma {:induction false} StatusRoundTrip(status: Option<string>)
    requires status.None? || IsUiStatus(status.value)
    ensures UiStatus(StoreStatus(status)) == if status.None? then "for-sale" else status.value
  {
    if status.None? || status.value == "for-sale" {
      ShowForSale();
      StoreForSale();
    } else if status.value == "sold" {
      ShowSold();
      StoreSold();
    } else if status.value == "pending" {
      ShowPending();
      StorePending();
    } else {
      ShowOffMarket();
      StoreOffMarket();
    }
  }

  // ---- Answers from the in-memory listings ----

  predicate IsFeatured(p: Property) { p.isFeatured == Some(true) }

  /** `getFeaturedProperties` without the store: every featured listing, in
      order; unlike the store query it neither keeps only FOR_SALE listings
      nor stops at three. */
  function FeaturedFallback(listings: seq<Property>): (r: seq<Property>)
    ensures forall p | p in r :: p in listings && p.isFeatured == Some(true)
    ensures forall p | p in listings && p.isFeatured == Some(true) :: p in r
    ensures Seqs.IsSubsequence(r, listings)
    ensures forall p | p in listings :: multiset(r)[p] == if IsFeatured(p) then multiset(listings)[p] else 0
  {
    Seqs.Filter(listings, IsFeatured)
  }

  /** `getAllProperties(limit = 20, offset = 0)` without the store:
      `slice(offset, offset + limit)`, again without the FOR_SALE restriction. */
  function AllFallback(listings: seq<Property>, limit: Option<int>, offset: Option<int>): seq<Property> {
    var l, o := limit.GetOr(20), offset.GetOr(0);
    Seqs.Slice(listings, o, o + l)
  }

  /** With a non-negative limit and offset the answer is the window
      `[offset, offset + limit)` clipped to the listings: at most `limit`
      listings, and none once the offset reaches the end. */
  lemma {:induction false} AllFallbackWindow(listings: seq<Property>, limit: nat, offset: nat)
    ensures var r := AllFallback(listings, Some(limit), Some(offset));
      && r == listings[Seqs.Min(offset, |listings|)..Seqs.Min(offset + limit, |listings|)]
      && |r| <= limit
      && (offset >= |listings| ==> r == [])
  {
  }

  /** Without arguments the answer is the first twenty listings. */
  lemma {:induction false} AllFallbackDefaults(listings: seq<Property>)
    ensures AllFallback(listings, None, None) == Seqs.Take(listings, 20)
  {
  }

  /** Position of the first listing with that id, or the number of listings
      when there is none. */
  function IdIndex(listings: seq<Property>, id: string): (k: nat)
    ensures k <= |listings|
    ensures forall j :: 0 <= j < k ==> listings[j].id != id
    ensures k < |listings| ==> listings[k].id == id
  {
    if listings == [] then 0
    else if listings[0].id == id then 0
    else 1 + IdIndex(listings[1..], id)
  }

  /** `getPropertyById` without the store: the first listing with that id,
      or nothing. */
  function ByIdFallback(listings: seq<Property>, id: string): (r: Option<Property>)
    ensures r.None? <==> forall p | p in listings :: p.id != id
    ensures r.Some? ==> exists i :: (0 <= i < |listings| && listings[i] == r.value && r.value.id == id
                                     && forall j :: 0 <= j < i ==> listings[j].id != id)
  {
    var k := IdIndex(listings, id);
    if k < |listings| then Some(listings[k]) else None
  }

  /** The text search of `searchProperties` without the store: the query
      occurs in the title, the description or the location, ignoring case. */
  predicate MatchesQuery(p: Property, query: string) {
    var q := Text.ToLower(query);
    Text.Contains(Text.ToLower(p.title), q)
      || Text.Contains(Text.ToLower(p.description), q)
      || Text.Contains(Text.ToLower(p.location), q)
  }

  /** `searchProperties(query)` without the store: the matching listings in
      order, without the FOR_SALE restriction of the store query. */
  function SearchFallback(listings: seq<Property>, query: string): (r: seq<Property>)
    ensures forall p | p in r :: p in listings && MatchesQuery(p, query)
    ensures forall p | p in listings && MatchesQuery(p, query) :: p in r
    ensures Seqs.IsSubsequence(r, listings)
    ensures forall p | p in listings :: multiset(r)[p] == if MatchesQuery(p, query) then multiset(listings)[p] else 0
  {
    Seqs.Filter(listings, (p: Property) => MatchesQuery(p, query))
  }

  /** An empty query keeps every listing. */
  lemma {:induction false} SearchEmptyQueryKeepsAll(listings: seq<Property>)
    ensures SearchFallback(listings, "") == listings
  {
    forall p | p in listings ensures MatchesQuery(p, "") {
      Text.ContainsEmpty(Text.ToLower(p.title));
    }
    Seqs.FilterKeepsAll(listings, p => MatchesQuery(p, ""));
  }

  /** The case of the query does not matter. */
  lemma {:induction false} SearchIgnoresQueryCase(listings: seq<Property>, query: string)
    ensures SearchFallback(listings, Text.ToUpper(query)) == SearchFallback(listings, query)
    ensures SearchFallback(listings, Text.ToLower(query)) == SearchFallback(listings, query)
  {
    Text.LowerOfUpper(query);
    Text.LowerIdempotent(query);
    Seqs.FilterAgrees(listings, p => MatchesQuery(p, Text.ToUpper(query)), p => MatchesQuery(p, query));
    Seqs.FilterAgrees(listings, p => MatchesQuery(p, Text.ToLower(query)), p => MatchesQuery(p, query));
  }

  /** `getPropertiesByPriceRange` without the store: the listings whose
      dollar price lies between the bounds, both included, in order. */
  function PriceRangeFallback(listings: seq<Property>, minPrice: int, maxPrice: int): (r: seq<Property>)
    ensures forall p | p in r :: p in listings && minPrice <= p.price <= maxPrice
    ensures forall p | p in listings && minPrice <= p.price <= maxPrice :: p in r
    ensures Seqs.IsSubsequence(r, listings)
    ensures forall p | p in listings :: multiset(r)[p] == if minPrice <= p.price <= maxPrice then multiset(listings)[p] else 0
  {
    Seqs.Filter(listings, (p: Property) => minPrice <= p.price <= maxPrice)
  }

  /** An inverted range finds nothing. */
  lemma {:induction false} InvertedRangeIsEmpty(listings: seq<Property>, minPrice: int, maxPrice: int)
    requires minPrice > maxPrice
    ensures PriceRangeFallback(listings, minPrice, maxPrice) == []
  {
  }

  /** The store query's price test, on cents against the bounds times 100. */
  predicate StoreInRange(cents: int, minPrice: int, maxPrice: int) {
    minPrice * 100 <= cents <= maxPrice * 100
  }

  /** On whole-dollar prices the store's test in cents and the in-memory test
      on the displayed dollars agree. */
  lemma {:induction false} WholeDollarRangesAgree(dollars: int, minPrice: int, maxPrice: int)
    ensures StoreInRange(100 * dollars, minPrice, maxPrice) <==> minPrice <= DisplayPrice(100 * dollars) <= maxPrice
  {
    PriceRoundTrip(dollars);
  }

  /** On a price with cents they can disagree: $100.50 is shown as $101, yet
      the store's test for exactly $101 leaves it out. */
  lemma {:induction false} CentPricesMayDisagree()
    ensures DisplayPrice(10050) == 101 && !StoreInRange(10050, 101, 101)
  {
  }

  /** The listings the service answers with when the store is unavailable. */
  const MockProperties: seq<Property> := [Villa, SuburbanParadise, Townhouse, Cottage, Condo]

  const Villa := Property("1", "Modern Luxury Villa", "Beverly Hills, CA", 850000,
    "Stunning 4-bedroom villa with panoramic city views, modern amenities, and elegant design.",
    4, 3, 2500, "https://picsum.photos/400/250?random=1", Some(true), Some("for-sale"), None, None)
  const SuburbanParadise := Property("2", "Suburban Paradise", "Portland, OR", 625000,
    "Charming family home with spacious yard, updated kitchen, and quiet neighborhood.",
    4, 3, 2200, "https://picsum.photos/400/250?random=2", Some(true), Some("for-sale"), None, None)
  const Townhouse := Property("3", "Elegant Townhouse", "Chicago, IL", 580000,
    "Stylish townhouse in prime location with modern finishes and city conveniences.",
    3, 3, 1900, "https://picsum.photos/400/250?random=3", Some(true), Some("for-sale"), None, None)
  const Cottage := Property("4", "Cozy Cottage", "Austin, TX", 425000,
    "Charming cottage with rustic charm and modern updates in a desirable neighborhood.",
    3, 2, 1600, "https://picsum.photos/400/250?random=4", Some(false), Some("for-sale"), None, None)
  const Condo := Property("5", "Waterfront Condo", "Miami, FL", 950000,
    "Luxurious waterfront condominium with breathtaking ocean views and premium amenities.",
    2, 2, 1800, "https://picsum.photos/400/250?random=5", Some(false), Some("for-sale"), None, None)

  /** Of five elements, a filter keeping the first three and dropping the
      last two gives the first three. */
  lemma {:induction false} KeepsFirstThree(a: Property, b: Property, c: Property, d: Property, e: Property,
                                           p: Property -> bool)
    requires p(a) && p(b) && p(c) && !p(d) && !p(e)
    ensures Seqs.Filter([a, b, c, d, e], p) == [a, b, c]
  {
    assert [a, b, c, d, e] == [a, b, c] + [d, e];
    Seqs.FilterKeepsPrefix([a, b, c], [d, e], p);
  }

  /** On the in-memory listings the featured ones are the first three. */
  lemma {:induction false} MockFeatured()
    ensures FeaturedFallback(MockProperties) == [Villa, SuburbanParadise, Townhouse]
  {
    KeepsFirstThree(Villa, SuburbanParadise, Townhouse, Cottage, Condo, IsFeatured);
  }

  /** On the in-memory listings the range $500,000 to $900,000 finds the first
      three. */
  lemma {:induction false} MockPriceRange()
    ensures PriceRangeFallback(MockProperties, 500000, 900000) == [Villa, SuburbanParadise, Townhouse]
  {
    var inRange := (p: Property) => 500000 <= p.price <= 900000;
    KeepsFirstThree(Villa, SuburbanParadise, Townhouse, Cottage, Condo, inRange);
  }

  /** On the in-memory listings id "4" is the cottage. */
  lemma {:induction false} MockById()
    ensures ByIdFallback(MockProperties, "4") == Some(Cottage)
  {
    var m := MockProperties;
    assert m[1..] == [SuburbanParadise, Townhouse, Cottage, Condo];
    assert m[1..][1..] == [Townhouse, Cottage, Condo];
    assert m[1..][1..][1..] == [Cottage, Condo];
    assert IdIndex([Cottage, Condo], "4") == 0;
    assert IdIndex([Townhouse, Cottage, Condo], "4") == 1;
    assert IdIndex([SuburbanParadise, Townhouse, Cottage, Condo], "4") == 2;
  }

  /** Id "6" names none of the in-memory listings. */
  lemma {:induction false} MockByIdAbsent()
    ensures ByIdFallback(MockProperties, "6") == None
  {
    assert forall p | p in MockProperties :: p.id != "6";
  }
}
