# Earth and Home listings: a verified model of the listing logic

Earth and Home is a real-estate listings site built with React. Most of it is
markup. This project models the parts that compute something:

- **PropertyService.** Conversion between stored records and the records the
  pages display: prices in cents against whole dollars, and the
  `FOR_SALE`/`for-sale` status names. Also the in-memory fallback answers of
  the service's queries: featured, paged, by id, text search and price range.
- **Pager.** The pager's page-number window, with Previous/Next, first and
  last page, and ellipses.
- **Results bar.** The "showing X – Y of N" range, the count of active
  filters, and the sort selector's `field-direction` encoding.
- **Search form.** Filter state read from the page address, per-key
  updates, the "has filters" flag, the `/listings?…` address it builds, and
  clearing.
- **Two index machines.** The photo gallery's selected image, and the home
  page's hero carousel with its slide selection, auto-advance, pause and
  static first render.
- **Property labels.** Status, property-type, badge colour and
  singular/plural labels.

Modules follow the source files:

- `PropertyService`, `Pagination`, `SearchResults`, `InteractiveSearch`,
  `Gallery`, `HeroCarousel` and `PropertyInfo` model the source's own code.
- `SearchParams` is the search-request record the results bar and the pager
  share.
- Small modules model the JavaScript built-ins the source relies on:
  - `Text`: ASCII case mapping, `replace` of the first occurrence, `split`,
    `join`, `includes`.
  - `JsNumber`: `Number(text)` and `String(number)` on integers.
  - `FormUrlEncoded`: `URLSearchParams` serialisation and parsing.
  - `Seqs`: `filter`, `slice`.
  - `Cyclic`: stepping an index modulo a length.
  - `Optional`: an absent-or-present value.

Stateful components are classes whose methods change their fields:
`Gallery.PropertyGallery`, `HeroCarousel.HeroSection` and
`InteractiveSearch.SearchForm`. Two loops keep their loop form and are
proved against a specification function:

- the pager's `renderPageNumbers` (`Pagination.RenderPageNumbers` against
  `Pagination.PageItems`);
- the search form's query building (`SearchForm.HandleSearch` against
  `InteractiveSearch.ListingsUrl`).

The results bar's filter counter is a method with a local counter, as in the
source. Everything else is functions over values.

Two places where the code does not do what it evidently means are listed
under "Findings". Each comes with a model of the code as written and a
corrected definition, and the rest of the model uses the corrected one.

## Model

| member | source | states |
|---|---|---|
| PropertyService.DisplayPrice | src/app/services/PropertyService.ts:27 | The displayed price is the whole dollar nearest to the stored cents, a half rounding up: 100·d − 50 ≤ cents < 100·d + 50. |
| PropertyService.LastChar | src/app/services/PropertyService.ts:32 | `id.slice(-1)`: empty for an empty id, otherwise exactly the id's last character. |
| PropertyService.TransformProperty | src/app/services/PropertyService.ts:22-38 | The displayed record has the price rounded from cents to dollars. Its image URL is never empty and is the stored one whenever that is non-empty. Its status is the lower-cased stored status with the first `_` turned into `-`. Every other field is copied, and isFeatured/createdAt/updatedAt are present. |
| PropertyService.StoreStatus | src/app/services/PropertyService.ts:254 | A missing or empty status is stored as FOR_SALE. |
| PropertyService.CreateRecord | src/app/services/PropertyService.ts:244-256 | The stored record has price dollars × 100 and isFeatured false unless given as true. Its status is upper-cased with the first `-` turned into `_`, defaulting to FOR_SALE. Every other field is copied. |
| PropertyService.PriceRoundTrip | src/app/services/PropertyService.ts:248 | A whole-dollar price stored as cents is displayed as the same number of dollars. |
| PropertyService.CreateThenShow | src/app/services/PropertyService.ts:242-260 | The listing `createProperty` returns has the given id, texts, counts and whole-dollar price. Its status is the given one, or for-sale when none was given. isFeatured is true only when given as true. The image is the given one, or the placeholder ending in the id's last character when empty. The given timestamps are kept. |
| PropertyService.StatusRoundTrip | src/app/services/PropertyService.ts:254 | Each of the four display statuses, and a missing one, comes back from store-then-display as itself (missing as for-sale). |
| PropertyService.StatusFromStoreRoundTrip | src/app/services/PropertyService.ts:34 | A non-empty stored status without lower-case letters or `-` survives display-then-store. |
| PropertyService.StatusFromUiRoundTrip | src/app/services/PropertyService.ts:34 | A non-empty display status without upper-case letters or `_` survives store-then-display. |
| PropertyService.StatusNamesCorrespond | src/app/services/PropertyService.ts:34 | FOR_SALE, SOLD, PENDING and OFF_MARKET correspond to for-sale, sold, pending and off-market in both directions. |
| PropertyService.FeaturedFallback | src/app/services/PropertyService.ts:127 | Exactly the featured listings, in their original order, each as often as in the input: no cap at three and no status restriction. |
| PropertyService.MockFeatured | src/app/services/PropertyService.ts:127 | On the built-in listings the featured fallback is Villa, Suburban Paradise, Townhouse. |
| PropertyService.AllFallbackWindow | src/app/services/PropertyService.ts:145 | The paged fallback is the listings from offset to offset + limit, clipped to the list. It holds at most `limit` listings and is empty once the offset reaches the end. |
| PropertyService.AllFallbackDefaults | src/app/services/PropertyService.ts:132 | Without a limit and offset the answer is the first 20 listings. |
| PropertyService.IdIndex | src/app/services/PropertyService.ts:160 | The position of the first listing with the id, or the list length when there is none. |
| PropertyService.ByIdFallback | src/app/services/PropertyService.ts:160 | The answer is absent exactly when no listing has the id. Otherwise it is the first listing with that id. |
| PropertyService.MockById | src/app/services/PropertyService.ts:160 | Id "4" finds the Cottage among the built-in listings. |
| PropertyService.MockByIdAbsent | src/app/services/PropertyService.ts:160 | Id "6" finds nothing among the built-in listings. |
| PropertyService.SearchFallback | src/app/services/PropertyService.ts:187-191 | Exactly the listings whose title, description or location contains the query case-insensitively, in their original order, each as often as in the input. |
| PropertyService.SearchEmptyQueryKeepsAll | src/app/services/PropertyService.ts:187-191 | The empty query keeps every listing. |
| PropertyService.SearchIgnoresQueryCase | src/app/services/PropertyService.ts:187-191 | Upper- or lower-casing the query does not change the answer. |
| PropertyService.PriceRangeFallback | src/app/services/PropertyService.ts:213 | Exactly the listings with min ≤ price ≤ max, both bounds included, in their original order, each as often as in the input. |
| PropertyService.InvertedRangeIsEmpty | src/app/services/PropertyService.ts:213 | A range with min > max is empty. |
| PropertyService.MockPriceRange | src/app/services/PropertyService.ts:213 | Among the built-in listings, 500000 to 900000 dollars gives Villa, Suburban Paradise, Townhouse. |
| PropertyService.WholeDollarRangesAgree | src/app/services/PropertyService.ts:201-204 | For a whole-dollar price, the store's test in cents against min·100/max·100 agrees with the fallback's test on displayed dollars. |
| PropertyService.CentPricesMayDisagree | src/app/services/PropertyService.ts:201-204 | For prices with cents the two tests differ: 10050 cents is displayed as 101 dollars but is outside the store range 101–101. |
| Pagination.PageWindow | src/app/components/listings/Pagination.tsx:20-28 | With at least one page: 1 ≤ start ≤ end ≤ total, and the window holds min(5, total) pages. It contains the current page when that is in range. A page before the window's start or after its end lies beyond the current page on that side. |
| Pagination.Buttons | src/app/components/listings/Pagination.tsx:64-74 | One page button per page from start to end. |
| Pagination.RenderPageNumbers | src/app/components/listings/Pagination.tsx:18-110 | The pushes build exactly the item sequence `PageItems`: Previous, first page and ellipsis, the window, ellipsis and last page, Next. |
| Pagination.PushPrevious | src/app/components/listings/Pagination.tsx:31-41 | Appends Previous (to the page before) exactly when the current page is past the first. |
| Pagination.PushFirstPage | src/app/components/listings/Pagination.tsx:44-61 | Appends page 1 when the window starts after it, and an ellipsis when the window starts after page 2. |
| Pagination.PushWindow | src/app/components/listings/Pagination.tsx:64-74 | Appends one button per window page, the current one marked active. |
| Pagination.PushLastPage | src/app/components/listings/Pagination.tsx:77-94 | Appends an ellipsis and then the last page, each when the window ends far enough before it. |
| Pagination.PushNext | src/app/components/listings/Pagination.tsx:97-106 | Appends Next (to the page after) exactly when the current page is before the last. |
| Pagination.Render | src/app/components/listings/Pagination.tsx:112-114 | Nothing is rendered exactly when there is at most one page; otherwise the rendered items are `PageItems`. |
| Pagination.NavigateToPage | src/app/components/listings/Pagination.tsx:12-16 | The new request has the given page and every other field unchanged. |
| Pagination.PreviousComesFirst | src/app/components/listings/Pagination.tsx:31-41 | Previous is the first item exactly when the current page is past the first, and appears nowhere else. |
| Pagination.NextComesLast | src/app/components/listings/Pagination.tsx:97-106 | Next is the last item exactly when the current page is before the last, and appears nowhere else. |
| Pagination.ActiveIsCurrent | src/app/components/listings/Pagination.tsx:66-68 | A page button is active exactly when it is the current page, and the current page's active button is shown when it is in range. |
| Pagination.PageNumbersShown | src/app/components/listings/Pagination.tsx:44-94 | The page numbers shown start at 1, end at the last page and strictly increase, so none repeats. |
| Pagination.EllipsisMarksGaps | src/app/components/listings/Pagination.tsx:54-84 | Two neighbouring page buttons are consecutive pages unless an ellipsis stands between them, and every ellipsis stands between two page buttons. |
| Pagination.EllipsisCount | src/app/components/listings/Pagination.tsx:54-84 | There is one leading ellipsis exactly when the window starts after page 2 and one trailing ellipsis exactly when it ends before the second-last page, and no other. |
| SearchResults.ItemsPerPage | src/app/components/listings/SearchResults.tsx:12 | The page size is the limit, or 20 when the limit is missing or 0. |
| SearchResults.EndItem | src/app/components/listings/SearchResults.tsx:14 | The last item shown exceeds neither the total nor page × page size, and equals one of them. |
| SearchResults.RangeShown | src/app/components/listings/SearchResults.tsx:13-14 | On a page that has results, 1 ≤ first ≤ last ≤ total, and the range holds min(page size, what is left) items. |
| SearchResults.ActiveFiltersCount | src/app/components/listings/SearchResults.tsx:27-37 | The counter's result is the number of set filter groups. Min/max price is one group and min/max area is one. Empty text, zero and "Any Type" are not set, and neither is an empty features list. |
| SearchResults.GroupsCounted | src/app/components/listings/SearchResults.tsx:27-37 | The count adds one for each of the seven groups that is set. |
| SearchResults.ActiveFiltersBounds | src/app/components/listings/SearchResults.tsx:27-37 | The count is at most 7, and is 0 exactly when no group is set. |
| SearchResults.CountIgnoresPaging | src/app/components/listings/SearchResults.tsx:27-37 | Requests that differ only in page, page size or sort have the same count. |
| SearchResults.HandleSortChange | src/app/components/listings/SearchResults.tsx:16-25 | The new request has the chosen field and direction and page 1, and every filter and the page size unchanged. |
| SearchResults.SortKeepsCount | src/app/components/listings/SearchResults.tsx:16-25 | Changing the sort does not change the number of active filters. |
| SearchResults.DecodeSort | src/app/components/listings/SearchResults.tsx:83 | A value without `-` splits into itself and no direction. |
| SearchResults.SortRoundTrip | src/app/components/listings/SearchResults.tsx:81-84 | Choosing a value with exactly one inner `-` sends a request whose selector shows that value again. |
| SearchResults.SortOptionsRoundTrip | src/app/components/listings/SearchResults.tsx:81-95 | Each of the eight sort options survives being chosen and shown again. |
| SearchResults.DefaultSort | src/app/components/listings/SearchResults.tsx:81 | Without a sort the selector shows createdAt-desc. |
| InteractiveSearch.Lookup | src/app/components/listings/InteractivePropertySearch.tsx:13-29 | Reading a key of the filter object: absent when the key is missing, otherwise the value of the first entry with that key. |
| InteractiveSearch.TextParam | src/app/components/listings/InteractivePropertySearch.tsx:18-19 | A text filter read from the address is always a text: the parameter's value, or `''` when it is missing or empty. |
| InteractiveSearch.NumberParam | src/app/components/listings/InteractivePropertySearch.tsx:20-25 | A numeric filter read from the address is a number when the parameter is present and non-empty, otherwise undefined. |
| InteractiveSearch.InitialFilters | src/app/components/listings/InteractivePropertySearch.tsx:13-29 | Outside the browser the filters are empty. |
| InteractiveSearch.InitialShape | src/app/components/listings/InteractivePropertySearch.tsx:15-26 | In the browser the filters hold all eight keys once each, texts as texts and numbers as numbers or undefined. |
| InteractiveSearch.InitialLookup | src/app/components/listings/InteractivePropertySearch.tsx:16-25 | Each key reads as its own parameter, decoded as a text or as a number by its kind. |
| InteractiveSearch.Put | src/app/components/listings/InteractivePropertySearch.tsx:43-46 | The object spread keeps the number of keys when the key is present and adds one when it is not. |
| InteractiveSearch.PutReads | src/app/components/listings/InteractivePropertySearch.tsx:43-46 | After the spread the key reads as the new value. |
| InteractiveSearch.PutKeepsOthers | src/app/components/listings/InteractivePropertySearch.tsx:43-46 | Every other key reads as before. |
| InteractiveSearch.PutUnique | src/app/components/listings/InteractivePropertySearch.tsx:43-46 | The spread never duplicates a key and adds no key but the one given. |
| InteractiveSearch.Normalize | src/app/components/listings/InteractivePropertySearch.tsx:45 | `''` and 0 (and undefined) become undefined; any other value is kept. |
| InteractiveSearch.Piece | src/app/components/listings/InteractivePropertySearch.tsx:54-56 | An entry contributes a query parameter exactly when its value is set. |
| InteractiveSearch.QueryPairs | src/app/components/listings/InteractivePropertySearch.tsx:52-57 | The query has at most one parameter per entry. |
| InteractiveSearch.SearchForm.constructor | src/app/components/listings/InteractivePropertySearch.tsx:13-32 | The form starts with the filters read from the address and the advanced panel closed. The "has filters" flag agrees with them. |
| InteractiveSearch.SearchForm.HandleFilterChange | src/app/components/listings/InteractivePropertySearch.tsx:42-47 | The key now reads as the normalised value and every other key is unchanged. The flag is brought up to date. |
| InteractiveSearch.SearchForm.ToggleAdvanced | src/app/components/listings/InteractivePropertySearch.tsx:167 | Only the advanced panel's visibility flips. |
| InteractiveSearch.SearchForm.HandleSearch | src/app/components/listings/InteractivePropertySearch.tsx:50-67 | The loop over the entries builds exactly the address `ListingsUrl` of the current filters. |
| InteractiveSearch.SearchForm.ClearFilters | src/app/components/listings/InteractivePropertySearch.tsx:69-85 | The filters become the cleared state: empty texts and undefined numbers. The target is `/listings` and no filter is active. |
| InteractiveSearch.ChangeSetsFlag | src/app/components/listings/InteractivePropertySearch.tsx:34-47 | After an update, some filter is active exactly when the new value is set or some other key's value is. |
| InteractiveSearch.ActiveByKey | src/app/components/listings/InteractivePropertySearch.tsx:36-38 | "Has active filters" holds exactly when some key reads as a set value. |
| InteractiveSearch.QueryEmptyIff | src/app/components/listings/InteractivePropertySearch.tsx:52-57 | The query is empty exactly when no filter is active. |
| InteractiveSearch.BareUrlIffNoFilters | src/app/components/listings/InteractivePropertySearch.tsx:60 | The address is the bare `/listings` exactly when no filter is active. |
| InteractiveSearch.GetQuery | src/app/components/listings/InteractivePropertySearch.tsx:52-57 | The query holds a key's parameter exactly when that key's value is set, and then it holds `String(value)`. |
| InteractiveSearch.ClearedIsInactive | src/app/components/listings/InteractivePropertySearch.tsx:70-81 | The cleared state is well formed, has no active filter, and its address is `/listings`. |
| InteractiveSearch.AddressRoundTrip | src/app/components/listings/InteractivePropertySearch.tsx:13-60 | A form loaded from the address a search built reads every set filter back unchanged. Unset texts come back as `''` and unset numbers as undefined (for ASCII text values). |
| InteractiveSearch.ParamRestores | src/app/components/listings/InteractivePropertySearch.tsx:16-25 | A parameter carrying a set value's `String(value)` reads back as that value, and a missing one as `''` or undefined by the key's kind. |
| Gallery.Images | src/app/components/property/PropertyGallery.tsx:16-18 | The gallery list when it is non-empty, otherwise the single main image, so never empty. |
| Gallery.PropertyGallery.constructor | src/app/components/property/PropertyGallery.tsx:12-18 | The gallery starts at the first image with the full-screen view closed. |
| Gallery.PropertyGallery.NextImage | src/app/components/property/PropertyGallery.tsx:20-22 | The selection moves to (i + 1) mod n and stays in range. |
| Gallery.PropertyGallery.PrevImage | src/app/components/property/PropertyGallery.tsx:24-26 | The selection moves to (i − 1 + n) mod n and stays in range. |
| Gallery.PropertyGallery.SelectImage | src/app/components/property/PropertyGallery.tsx:79 | A thumbnail click selects that image and leaves the full-screen view as it was. |
| Gallery.PropertyGallery.OpenModal | src/app/components/property/PropertyGallery.tsx:28-31 | The given image is selected and the full-screen view opens. |
| Gallery.PropertyGallery.CloseModal | src/app/components/property/PropertyGallery.tsx:104 | Only the full-screen view closes; the selection is kept. |
| Gallery.PropertyGallery.Counter | src/app/components/property/PropertyGallery.tsx:48 | The counter shows the selected index plus one, between 1 and the number of images, out of that number. |
| Gallery.PropertyGallery.Highlighted | src/app/components/property/PropertyGallery.tsx:81 | Exactly one thumbnail is highlighted: the selected one. |
| Cyclic.Next | src/app/components/property/PropertyGallery.tsx:21 | The next index wraps from the last to 0 and stays below the length. |
| Cyclic.Prev | src/app/components/property/PropertyGallery.tsx:25 | The previous index wraps from 0 to the last and stays below the length. |
| Cyclic.PrevOfNext | src/app/components/property/PropertyGallery.tsx:20-26 | Going back after going forward returns to the same index. |
| Cyclic.NextOfPrev | src/app/components/property/PropertyGallery.tsx:20-26 | Going forward after going back returns to the same index. |
| Cyclic.AdvanceCompose | src/app/components/property/PropertyGallery.tsx:21 | a + b forward steps are a steps followed by b steps. |
| Cyclic.FullCycle | src/app/components/property/PropertyGallery.tsx:21 | n forward steps over n images return to the start. |
| Cyclic.OneMarked | src/app/components/caroussel/HeroSectionCaroussel.tsx:83 | Marking the positions equal to the current index marks exactly one when the index is in range. |
| HeroCarousel.SlidesAsWritten | src/app/components/caroussel/HeroSectionCaroussel.tsx:34 | As written: the first three featured listings in order (all of them when fewer), so none at all exactly when no listing is featured. |
| HeroCarousel.AsWrittenLosesFallback | src/app/components/caroussel/HeroSectionCaroussel.tsx:34 | As written, listings without a featured one give no slides, though the evidently intended fallback gives the first three. |
| HeroCarousel.CottageOnly | src/app/components/caroussel/HeroSectionCaroussel.tsx:34 | As written, the single non-featured Cottage gives no slides; corrected, it gives the Cottage. |
| HeroCarousel.Slides | src/app/components/caroussel/HeroSectionCaroussel.tsx:34 | Corrected: at most three slides, none exactly when there are no listings. They are the first three featured listings when any is featured, otherwise the first three listings. |
| HeroCarousel.FewFeaturedAreSlides | src/app/components/caroussel/HeroSectionCaroussel.tsx:34 | With one to three featured listings, the slides are exactly those listings. |
| HeroCarousel.MockSlides | src/app/components/caroussel/HeroSectionCaroussel.tsx:34 | On the built-in listings the slides are Villa, Suburban Paradise, Townhouse. |
| HeroCarousel.View | src/app/components/caroussel/HeroSectionCaroussel.tsx:65-113 | No slides render nothing. Before mounting, the first slide renders statically. Once mounted, the carousel renders every slide with exactly the current one active. |
| HeroCarousel.HeroSection.constructor | src/app/components/caroussel/HeroSectionCaroussel.tsx:24-34 | The carousel starts unmounted at slide 0, not paused, with the selected slides. |
| HeroCarousel.HeroSection.Mount | src/app/components/caroussel/HeroSectionCaroussel.tsx:29-31 | Mounting sets only the mounted flag. |
| HeroCarousel.HeroSection.Tick | src/app/components/caroussel/HeroSectionCaroussel.tsx:38-48 | A timer tick advances like Next exactly when mounted, with several slides and not paused, and otherwise changes nothing. |
| HeroCarousel.HeroSection.GoToNext | src/app/components/caroussel/HeroSectionCaroussel.tsx:51-53 | The index moves to (i + 1) mod len and stays in range. |
| HeroCarousel.HeroSection.GoToPrev | src/app/components/caroussel/HeroSectionCaroussel.tsx:55-59 | The index moves to (i − 1 + len) mod len and stays in range. |
| HeroCarousel.HeroSection.GoToSlide | src/app/components/caroussel/HeroSectionCaroussel.tsx:61-63 | The index becomes the chosen slide. |
| HeroCarousel.HeroSection.MouseEnter | src/app/components/caroussel/HeroSectionCaroussel.tsx:74 | Hovering pauses the carousel, which then does not auto-advance. |
| HeroCarousel.HeroSection.MouseLeave | src/app/components/caroussel/HeroSectionCaroussel.tsx:75 | Leaving unpauses it; it auto-advances again exactly when mounted with several slides. |
| HeroCarousel.HeroSection.Render | src/app/components/caroussel/HeroSectionCaroussel.tsx:71-96 | With no slides nothing is shown; before mounting the first slide is shown statically; mounted, the carousel shows exactly its slides with only the current one active. |
| PropertyInfo.FormatStatus | src/app/components/property/PropertyInfo.tsx:42 | A missing or empty status shows as "Available". |
| PropertyInfo.FormatStatusIsTitleCase | src/app/components/property/PropertyInfo.tsx:41-46 | Split on `-`, capitalise, join with spaces is the same as replacing each `-` with a space and capitalising the letter after it. |
| PropertyInfo.StatusWordCount | src/app/components/property/PropertyInfo.tsx:43 | A status has one more word than it has hyphens. |
| PropertyInfo.NoHyphenInFormattedStatus | src/app/components/property/PropertyInfo.tsx:43-45 | The shown status contains no `-`. |
| PropertyInfo.FormattedStatusSplitsIntoWords | src/app/components/property/PropertyInfo.tsx:43-45 | For a status without spaces, splitting the shown text on spaces gives back its capitalised words. |
| PropertyInfo.ForSaleIsShownAsForSale | src/app/components/property/PropertyInfo.tsx:43-45 | for-sale shows as "For Sale". |
| PropertyInfo.StatusColor | src/app/components/property/PropertyInfo.tsx:26-39 | The badge is badge-primary exactly when the status is missing or not one of the four known ones. |
| PropertyInfo.StatusColorsDistinct | src/app/components/property/PropertyInfo.tsx:26-39 | The four known statuses have four different badges. |
| PropertyInfo.FormatPropertyType | src/app/components/property/PropertyInfo.tsx:19 | As written: the caption has the type's length and starts with its upper-cased first letter. After it, the first `_` becomes a space and every other character is lower-cased. |
| PropertyInfo.FormatPropertyTypeStableIff | src/app/components/property/PropertyInfo.tsx:19 | As written, formatting a caption again leaves it unchanged exactly when the type has at most one `_` after its first letter. |
| PropertyInfo.UnderscoreSurvives | src/app/components/property/PropertyInfo.tsx:19 | As written, a `_` survives into the caption exactly when there were two or more after the first letter. |
| PropertyInfo.TwoUnderscoresNotStable | src/app/components/property/PropertyInfo.tsx:19 | As written, "A_B_C" shows as "A b_c", and formatting that again changes it. |
| PropertyInfo.FormatPropertyTypeAll | src/app/components/property/PropertyInfo.tsx:19 | Corrected: same length, upper-cased first letter, and after it every `_` becomes a space and every other character is lower-cased. |
| PropertyInfo.FormatPropertyTypeAllStable | src/app/components/property/PropertyInfo.tsx:19 | Corrected, formatting is idempotent for every type. |
| PropertyInfo.FormatPropertyTypeAllAgrees | src/app/components/property/PropertyInfo.tsx:19 | On types with at most one `_` after the first letter, the corrected caption equals the one as written. |
| PropertyInfo.VillaCaption | src/app/components/property/PropertyInfo.tsx:19 | VILLA shows as "Villa". |
| PropertyInfo.BedroomLabel | src/app/components/property/PropertyInfo.tsx:78 | "Bedroom" exactly for one bedroom, "Bedrooms" otherwise. |
| PropertyInfo.BathroomLabel | src/app/components/property/PropertyInfo.tsx:88 | "Bathroom" exactly for one bathroom, "Bathrooms" otherwise. |
| Text.ReplaceFirst | src/app/services/PropertyService.ts:34 | `replace` with a one-character pattern changes only the first occurrence and keeps the length. |
| Text.ReplaceFirstBack | src/app/services/PropertyService.ts:34 | Replacing the first `a` by `b` and then the first `b` by `a` restores a text that had no `b`. |
| Text.SplitJoin | src/app/components/property/PropertyInfo.tsx:43-45 | Joining pieces that lack the separator and splitting again gives the pieces back. |
| Text.JoinSplit | src/app/components/property/PropertyInfo.tsx:43-45 | Splitting and joining with the same separator gives the text back. |
| JsNumber.ParseToText | src/app/components/listings/InteractivePropertySearch.tsx:20-25 | `Number(String(x))` is x for the integers and NaN. |
| FormUrlEncoded.Set | src/app/components/listings/InteractivePropertySearch.tsx:55 | After `set`, the name reads as the value. A new name is appended at the end. |
| FormUrlEncoded.Get | src/app/components/listings/InteractivePropertySearch.tsx:16 | `get` is absent exactly when no pair has the name; otherwise it is the value of the first pair with that name. |
| FormUrlEncoded.DecodeEncode | src/app/components/listings/InteractivePropertySearch.tsx:16 | Percent-decoding undoes form encoding for ASCII text. |
| FormUrlEncoded.ParseSerialize | src/app/components/listings/InteractivePropertySearch.tsx:16 | Parsing a serialised query, with or without its leading `?`, gives back the same name/value pairs (ASCII). |
| Seqs.Filter | src/app/services/PropertyService.ts:127 | `filter` keeps exactly the elements that pass, in their original order, each as often as in the input. |

## Left out

- Database access: the store queries and the `try`/`catch` that falls back to
  the built-in listings. Each query's fallback branch is a function over a
  list of listings passed in.
- `getStats`: it returns two store counts and a constant. Without the store
  nothing of it remains to compute.
- The object-taking, paginated search API, `searchParamsToURLParams` and
  `PropertySearchParams`. The pages call them, but src/app/services/PropertyService.ts
  does not define them. `SearchParams.Params` holds just the fields the
  components read. `NavigateToPage` and `HandleSortChange` stop at the new
  request, because its address encoding is not part of this model.
- Currency, square-feet and `toLocaleString` formatting: locale behaviour of
  the JavaScript runtime.
- JsNumber.Parse: `Number(text)` is modelled on an optional sign followed by
  decimal digits (and `''` as 0). Any other text is NaN, so the model has no
  fractions, exponents, whitespace or hexadecimal, and no non-integer values.
- FormUrlEncoded.ParseSerialize: stated for ASCII names and values only. The
  parser decodes each `%XX` as one character, so it does not model UTF-8
  decoding of multi-byte characters.
- Text: upper- and lower-casing act on ASCII letters only.
- Browser side effects: `history.pushState`, `location.href` navigation, the
  `onSearch` callback, and setting up and clearing the 4-second interval.
  `HandleSearch` and `ClearFilters` return the address they would push, and
  `Tick` is one firing of the interval.
- React scheduling: the `useEffect` that recomputes "has filters" runs as
  part of each update (`SearchForm.Valid` keeps the flag in step), and
  mounting is the explicit `Mount` call.
- InteractiveSearch.InitialFilters: outside the browser the state is `{}`.
  It is modelled as the empty entry list, and the form then reads every key
  as undefined.
- Pagination.RenderPageNumbers: the single source function is split into one
  method per push group. The items are values, not button elements, and a
  button's click is its target page.
- Gallery.PropertyGallery.constructor: the `Property` interface in
  src/app/services/PropertyService.ts has no `images` field. The gallery
  takes the optional image list as a separate parameter.
- Gallery.PropertyGallery.OpenModal and Gallery.PropertyGallery.SelectImage
  require an index below the number of images. The page only passes the
  index of an image it shows.
- HeroCarousel.HeroSection.GoToSlide requires an index below the number of
  slides, because the indicator buttons only offer those. GoToNext and
  GoToPrev require at least one slide, because with none the carousel is
  not shown and `% 0` is never evaluated.
- HeroCarousel.HeroSection.constructor: the `properties` prop is fixed for
  the component's lifetime; a re-render with new listings is not modelled.
- HeroCarousel.HeroSection.constructor: starts from the corrected selection
  `Slides`, not the as-written `SlidesAsWritten`. With no featured listing the
  program as written shows nothing, while the model shows the first listings
  (see Findings).
- PropertyService.CreateRecord: prices are whole dollars (integers). A dollar
  amount with cents, such as 19.99, whose `price * 100` is not an exact
  integer in JavaScript floating point, is not modelled.
- The "N filter(s) applied" wording and the "Clear All" navigation of the
  results bar: markup and navigation only.
- Contact form, newsletter sign-up, seeding script, property details page
  and the purely presentational components: templates and simulated I/O
  with no logic beyond what is modelled here.

## Findings

| source | as written | input that shows it | evidently intended | confidence | as-written member | corrected member |
|---|---|---|---|---|---|---|
| src/app/components/property/PropertyInfo.tsx:19 | `replace('_', ' ')` with a string pattern replaces only the first `_`, so a type with two underscores after its first letter keeps one, and formatting the caption again changes it | "A_B_C" shows as "A b_c"; formatting that gives "A b c" (the type is free text; none of the built-in listings has such a type) | every `_` becomes a space, and the caption is stable | not executed | PropertyInfo.TwoUnderscoresNotStable | PropertyInfo.FormatPropertyTypeAllStable |
| src/app/components/caroussel/HeroSectionCaroussel.tsx:34 | `filter(...).slice(0, 3) \|\| properties.slice(0, 3)`: an array is always truthy, so the fallback to the first three listings is never taken | the single non-featured Cottage gives no slides, and the hero stays blank | the first three listings when none is featured | not executed | HeroCarousel.CottageOnly | HeroCarousel.Slides |
