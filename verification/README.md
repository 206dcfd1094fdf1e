# Pricedrop listings core, modelled in Dafny

Pricedrop is a front-end for browsing used-car listings. This project models the logic behind its pages:

- **Cars page.** It turns the filter state into the `getCars` request, sorts the page client-side, keeps favourites and derives the fuel and gear lookup lists.
- **Request builder.** `getCars` writes `URLSearchParams`; the infinite query supplies the page parameters.
- **Filter panel.** It covers `updateFilter`, clear and apply, the "Active" marker, the check-box toggle, the year, price and mileage controls, and the model list.
- **Searchable select.** It covers the selected option, the search that ignores ASCII letter case, the keyboard and mouse events, and the `onChange` calls.
- **Range slider and single slider.** The model covers track clicks, drags, typed values and commits.
- **Pagination strip.** It models `getPageNumbers`, the page buttons and the ellipses.
- **Listings page.** It covers the "Showing a–b" range and the choice of content branch.
- **Car card.** It covers the deal score, the badges, savings, the kilometre label and the name fallbacks.
- **Countdown.** It models the per-tick computation of `useCountdown`.

Each React component becomes an immutable state datatype, with pure functions for its handlers. Where a component reacts to a stream of user events, it gets a `Step` function over an `Event` datatype and a `Run` over a sequence of events. The lemmas over these runs are the component's invariants.

Modules follow the source files:

| module | file |
|---|---|
| `Options`, `Numbers`, `Seqs`, `Strings` | shared helpers |
| `CarsApi` | `src/hooks/use-get-cars.ts` |
| `CarsPage` | `src/components/cars-page/cars-page.tsx` |
| `FilterTypes` | `src/components/filter-panel/types.ts` |
| `FilterPanel` | `src/components/filter-panel/filter-panel.tsx` |
| `SearchableSelect` | `src/components/filter-panel/searchable-select.tsx` |
| `RangeSlider` | `src/components/filter-panel/range-slider.tsx` |
| `SingleSlider` | `src/components/filter-panel/single-slider.tsx` |
| `Pagination` | `src/components/listings-page/pagination.tsx` |
| `ListingsPage` | `src/components/listings-page/listings-page.tsx` |
| `CarCard` | `src/components/car-card/car-card.tsx` |
| `Countdown` | `src/hooks/use-countdown.ts` |

Some things become parameters instead of being modelled:

- **Clock readings:** `Date.now()` and `new Date().getFullYear()`.
- **Pointer positions:** these arrive as the already stepped slider value that `getValueFromPercent` rounds.
- **String collation:** `localeCompare` is given as an integer rank of each label.
- **Date parsing** for the "newest" sort.
- **The price-to-prediction ratio** for the "best deals" sort, which is a float.

JavaScript details are modelled explicitly:

- `??` tests for null only, while `!x` and `x ? … : …` also treat 0 as missing.
- `toFixed(0)` rounds half up.
- `Math.ceil(ms / 1000)` is written with integer division.
- `Array.prototype.sort` is stable.
- `Array.from(new Set(...))` keeps first-occurrence order.

## Model

| member | source | states |
|---|---|---|
| CarsApi.Lookup | src/hooks/use-get-cars.ts:52-71 | reading a key back from the search parameters yields nothing exactly when no pair carries that key |
| CarsApi.Entries | src/hooks/use-get-cars.ts:54-71 | `getCars` considers its eleven keys in one fixed order: man_id, model_id, fuel_type_id, gear_type_id, prod_year_from, prod_year_to, price_from, price_to, search, page_size, page |
| CarsApi.EmitLookup | src/hooks/use-get-cars.ts:54-71 | when the keys are distinct, every key that was set reads back as exactly the text set for it, and a skipped key reads back as absent |
| CarsApi.EmitAbsent | src/hooks/use-get-cars.ts:54-69 | a key that `getCars` never sets is absent from the request |
| CarsApi.EmitKeysOrdered | src/hooks/use-get-cars.ts:54-71 | the keys in the request keep the order in which they were set |
| CarsApi.EmitAppend | src/hooks/use-get-cars.ts:54-71 | the parameters set by two runs of `set` calls are those of the first run followed by those of the second |
| CarsApi.QueryContents | src/hooks/use-get-cars.ts:54-71 | each numeric filter is sent iff it is non-null, as its decimal text; search is sent iff non-empty; page_size and page are always sent, defaulting to 16 and 1 |
| CarsApi.GetCarsQuery | src/hooks/use-get-cars.ts:51-71 | `getCars` sets at most one pair per key of its fixed key list, so never more than eleven pairs |
| CarsApi.KeyOrderDistinct | src/hooks/use-get-cars.ts:54-71 | no key is set twice |
| CarsApi.QueryKeysOrdered | src/hooks/use-get-cars.ts:54-71 | whatever the parameters, the request's keys are a subsequence of the fixed key order, so each appears at most once |
| CarsApi.QueryEndsWithPaging | src/hooks/use-get-cars.ts:70-71 | page_size and page are the last two pairs of every request |
| CarsApi.NumberTextRoundTrip | src/hooks/use-get-cars.ts:54-68 | parsing the text sent for an optional number gives back the number, and an absent number stays absent |
| CarsApi.QueryRoundTrip | src/hooks/use-get-cars.ts:51-71 | decoding the request recovers every parameter; the only losses are an empty search and the defaulting of an unset page_size or page |
| CarsApi.QueryFn | src/hooks/use-get-cars.ts:83-90 | whatever page the caller asked for, the query function's request carries the page parameter it was given, and the page size the hook was given (16 when none was) |
| CarsApi.NextPageParam | src/hooks/use-get-cars.ts:91-95 | a next page exists iff the last page is below the page count, and it is the following page, never past the last |
| CarsApi.FirstFetch | src/hooks/use-get-cars.ts:86-90 | the first fetch yields one page, fetched with the initial page parameter 1 |
| CarsPage.ToQueryParams | src/components/cars-page/cars-page.tsx:51-70 | an empty fuel or gear id list and an unset deals flag become null; the other filters are copied unchanged; the page size is 16 and the page is the current page |
| CarsPage.ToGetCarsParams | src/components/cars-page/cars-page.tsx:73 | the hook receives the manufacturer, model, year and price bounds and the paging values; fuel, gear and search are not among the parameters it forwards |
| CarsPage.RequestIgnoresCurrentPage | src/components/cars-page/cars-page.tsx:68 | as written, on any page but the first the request still asks for page 1, never for the page the user is on (see Findings) |
| CarsPage.RequestAsksCurrentPage | src/components/cars-page/cars-page.tsx:51-73 | the corrected request asks the server for the current page, 16 cars at a time, and the page reads back as a number |
| CarsPage.RequestAsWritten | src/components/cars-page/cars-page.tsx:51-73 | as written, the request built from the page state asks for page 1, 16 cars at a time, whatever the state |
| CarsPage.Request | src/components/cars-page/cars-page.tsx:51-73 | the corrected request carries the current page's decimal text and a page size of 16 |
| CarsPage.UnsentFilters | src/components/cars-page/cars-page.tsx:51-73 | fuel and gear ids, mileage, engine volume and the deals flag never change the request |
| CarsPage.RequestCarriesFilters | src/components/cars-page/cars-page.tsx:51-73 | the server can read back the exact manufacturer, model, year and price bounds from the request |
| CarsPage.HandleFilterChange | src/components/cars-page/cars-page.tsx:174-177 | a filter change installs the new filters and returns to page 1, and leaves the sort and favourites as they were |
| CarsPage.FilterChangeRequestsFirstPage | src/components/cars-page/cars-page.tsx:174-177 | after a filter change, the request asks for page 1 |
| CarsPage.HandleSortChange | src/components/cars-page/cars-page.tsx:179-181 | a sort change alters only the sort |
| CarsPage.SortChangeKeepsRequest | src/components/cars-page/cars-page.tsx:143-181 | sorting is client-side, so a sort change never alters the request |
| CarsPage.HandlePageChange | src/components/cars-page/cars-page.tsx:183-185 | a page change alters only the current page |
| CarsPage.ToggleFavorite | src/components/cars-page/cars-page.tsx:187-200 | the car is a favourite afterwards iff the flag was set; every other car keeps its status |
| CarsPage.ToggleFavoriteIdempotent | src/components/cars-page/cars-page.tsx:187-200 | repeating a toggle with the same flag changes nothing further |
| CarsPage.ToggleFavoriteUndo | src/components/cars-page/cars-page.tsx:187-200 | marking and then unmarking a car that was not a favourite restores the set |
| CarsPage.FavoriteToggled | src/components/cars-page/cars-page.tsx:187-200 | toggling a favourite leaves the filters, page and sort alone |
| CarsPage.ShownData | src/components/cars-page/cars-page.tsx:90-92 | the corrected page reads its cars, total and page count from the first fetched page; before any page arrives it shows no cars, a total of 0 and one page |
| CarsPage.ShownAsWritten | src/components/cars-page/cars-page.tsx:90-92 | as written, the page shows no cars, a total of 0 and one page, whatever the server sent |
| CarsPage.ShownAsWrittenDropsResponse | src/components/cars-page/cars-page.tsx:90-92 | as written, a first page with cars on it is shown exactly as if nothing had arrived (see Findings) |
| CarsPage.ShownFirstFetch | src/components/cars-page/cars-page.tsx:90-92 | once the first page arrives, the corrected page shows exactly that response's cars, total and page count |
| CarsPage.SortedCars | src/components/cars-page/cars-page.tsx:143-171 | every sort other than "best deals" permutes the page; "best deals" keeps exactly the cars with deal data, each as often as it occurs; each option orders by its key (newest first, price up or down, mileage up, deal ratio up) |
| CarsPage.Descending | src/components/cars-page/cars-page.tsx:147-155 | the "newest" and "price high to low" orders keep the page's cars, each as often as it occurs, with the key never increasing |
| CarsPage.BestDealsOrder | src/components/cars-page/cars-page.tsx:158-168 | "best deals" keeps each car with deal data as often as it occurs, drops the rest, and puts the smallest price-to-prediction rank first |
| CarsPage.SortedCarsStable | src/components/cars-page/cars-page.tsx:143-171 | cars that tie under the chosen key stay in the order the server sent them |
| CarsPage.BestDealsKeepsDealCars | src/components/cars-page/cars-page.tsx:158-168 | "best deals" shows a car iff it is on the page with a prediction flag and a predicted price |
| CarsPage.LabelFor | src/components/cars-page/cars-page.tsx:105-121 | a known id gets its table label; an unknown id gets "Fuel Type n" or "Gear Type n" |
| CarsPage.PresentIds | src/components/cars-page/cars-page.tsx:96-101 | the ids collected are exactly the non-null ids on the page |
| CarsPage.Labelled | src/components/cars-page/cars-page.tsx:96-106 | one item per distinct id present, each labelled from its table |
| CarsPage.SortedLabelled | src/components/cars-page/cars-page.tsx:102-107 | sorting the labelled items by label neither adds nor drops an item, keeps every id once, and leaves the labels in collation order |
| CarsPage.LookupItems | src/components/cars-page/cars-page.tsx:95-108 | the items offer exactly the ids present on the page, each id once, with its table label, and sorted by label |
| CarsPage.FuelIdsPresent | src/components/cars-page/cars-page.tsx:97-101 | an id is collected iff some car on the page has that fuel type |
| CarsPage.GearIdsPresent | src/components/cars-page/cars-page.tsx:113-117 | an id is collected iff some car on the page has that gear type |
| CarsPage.FuelTypesOnePerId | src/components/cars-page/cars-page.tsx:95-108 | a fuel id is offered iff some car on the page has it; it is offered once, labelled "Petrol"… or "Fuel Type n", in label order |
| CarsPage.GearTypesOnePerId | src/components/cars-page/cars-page.tsx:111-124 | a gear id is offered iff some car on the page has it; it is offered once, labelled "Manual"… or "Gear Type n", in label order |
| CarsPage.ManufacturerLookup | src/components/cars-page/cars-page.tsx:128-131 | the table has an entry for exactly the ids of the loaded manufacturers |
| CarsPage.ManufacturerLookupLastWins | src/components/cars-page/cars-page.tsx:128-131 | when an id occurs more than once, the last manufacturer listed with that id supplies its name |
| CarsPage.CardLookup | src/components/cars-page/cars-page.tsx:127-137 | the card receives the fixed fuel and gear tables, the manufacturer table (empty before it loads) and no model table |
| CarsPage.CardShowsLastManufacturerName | src/components/cars-page/cars-page.tsx:127-131 | a card for a car without its own manufacturer name shows the name of the last loaded manufacturer with the car's id |
| CarsPage.CardShowsUnknownManufacturer | src/components/cars-page/cars-page.tsx:127-137 | such a card shows "Unknown" before the manufacturers load, or when none of them has the car's id |
| CarCard.GetDealScore | src/components/car-card/car-card.tsx:24-36 | there is no score iff a prediction is missing; the score is "great" iff the price is below the minimum prediction, "good" iff it lies between the minimum and the prediction, and "fair" iff it is above the prediction |
| CarCard.DealScoreMonotoneInPrice | src/components/car-card/car-card.tsx:24-36 | lowering the asking price never worsens the score |
| CarCard.DealBadgeIff | src/components/car-card/car-card.tsx:319 | the deal badge is shown iff both predictions exist and the price is below the minimum prediction or at most the prediction |
| CarCard.ShowsDealBadge | src/components/car-card/car-card.tsx:319 | the deal badge is shown for a "great" or "good" score and never for "fair" or no score |
| CarCard.ShowsNewBadge | src/components/car-card/car-card.tsx:302 | the "New" badge is shown exactly when the listing has at most 100 views |
| CarCard.NewBadgeFades | src/components/car-card/car-card.tsx:302 | the badge shows at 100 views and not at 101, and once gone, more views never bring it back |
| CarCard.Savings | src/components/car-card/car-card.tsx:368-376 | a savings line appears iff a predicted price exists and lies above the asking price; it shows the positive amount that brings the price up to the prediction |
| CarCard.SavingsComeWithBadge | src/components/car-card/car-card.tsx:319-376 | when both predictions exist, a savings line always comes with a deal badge |
| CarCard.RoundedThousands | src/components/car-card/car-card.tsx:48 | from 1000 km on, the number shown is the nearest whole thousand, with halves rounded up |
| CarCard.FormatKilometers | src/components/car-card/car-card.tsx:46-51 | every distance label ends in " km" |
| CarCard.FormatKilometersThousands | src/components/car-card/car-card.tsx:46-51 | from 1000 km on, the label ends in "k km" and its digits name the nearest thousand |
| CarCard.FormatKilometersExact | src/components/car-card/car-card.tsx:46-51 | below 1000 km, the label ends in " km" without a "k", and its digits give the exact distance |
| CarCard.Coalesce | src/components/car-card/car-card.tsx:252-255 | the first present name wins, else "Unknown" |
| CarCard.Entry | src/components/car-card/car-card.tsx:253-258 | a table lookup is present iff the table and the entry both exist, and then it is the entry |
| CarCard.ManufacturerName | src/components/car-card/car-card.tsx:252-253 | the car's own manufacturer name wins; failing that the lookup table's entry is used, and failing both "Unknown" |
| CarCard.ModelName | src/components/car-card/car-card.tsx:254-255 | the car's own model name wins; failing that the lookup table's entry is used, and failing both "Unknown" |
| CarCard.FuelLabel | src/components/car-card/car-card.tsx:257 | a known fuel id shows the table's label; a missing or unknown id shows "Unknown" |
| CarCard.GearLabel | src/components/car-card/car-card.tsx:258 | a known gear id shows the table's label; a missing or unknown id shows "Unknown" |
| FilterPanel.UpdateFilter | src/components/filter-panel/filter-panel.tsx:183-198 | the updated field holds the new value; a manufacturer change also clears the model; every other field is unchanged |
| FilterPanel.UpdateFilterIdempotent | src/components/filter-panel/filter-panel.tsx:183-198 | applying the same update twice equals applying it once |
| FilterPanel.SameManufacturerClearsModel | src/components/filter-panel/filter-panel.tsx:188-190 | re-selecting the current manufacturer still drops a chosen model |
| FilterPanel.OnUpdate | src/components/filter-panel/filter-panel.tsx:183-198 | the local filters take the update; the parent is notified iff apply-on-change is set, and then with the updated filters |
| FilterPanel.ClearAll | src/components/filter-panel/filter-panel.tsx:200-205 | Clear All resets the local filters to the defaults; the parent is notified with the defaults iff apply-on-change is set |
| FilterPanel.Apply | src/components/filter-panel/filter-panel.tsx:207-210 | Apply hands the local filters to the parent and closes the drawer |
| FilterPanel.SyncFromProps | src/components/filter-panel/filter-panel.tsx:179-181 | new filters from the parent replace the local copy |
| FilterPanel.HasActiveFilters | src/components/filter-panel/filter-panel.tsx:217-232 | the "Active" marker is on exactly when the filters differ from the defaults |
| FilterPanel.ClearAllDeactivates | src/components/filter-panel/filter-panel.tsx:200-232 | after Clear All the marker is off |
| FilterPanel.UpdateActivates | src/components/filter-panel/filter-panel.tsx:183-232 | setting a nullable filter to a value, an id list to a non-empty list, or the deals flag to true turns the marker on |
| FilterPanel.ToggleId | src/components/filter-panel/filter-panel.tsx:64-70 | toggling a selected id removes every occurrence of it and keeps every other id, in order and as often as before; an unselected id is appended; no other id changes |
| FilterPanel.ToggleTwiceRestores | src/components/filter-panel/filter-panel.tsx:64-70 | ticking an unticked box and then unticking it restores the selection exactly |
| FilterPanel.FilterDropsLast | src/components/filter-panel/filter-panel.tsx:66 | removing an id that was just appended gives back the list as it was before the append |
| FilterPanel.AvailableModels | src/components/filter-panel/filter-panel.tsx:212-215 | with no manufacturer (null or 0) there are no models; otherwise the list holds exactly that manufacturer's models, in order |
| FilterPanel.DisabledModelSelectIsEmpty | src/components/filter-panel/filter-panel.tsx:212-215 | a disabled model select has nothing to offer |
| FilterPanel.ModelSelectDisabled | src/components/filter-panel/filter-panel.tsx:313 | the model select is disabled exactly when the manufacturer is null or 0, the falsy values of `!manufacturerId` |
| FilterPanel.YearOptions | src/components/filter-panel/filter-panel.tsx:120-126 | the year list counts down from the maximum and holds every year between min and max, and no other |
| FilterPanel.FromYearOptions | src/components/filter-panel/filter-panel.tsx:323-329 | the "From" list holds exactly the years from the range start up to the chosen "To" year, or up to the range end when no "To" year is chosen, once each and newest first |
| FilterPanel.ToYearOptions | src/components/filter-panel/filter-panel.tsx:330-336 | the "To" list holds exactly the years from the chosen "From" year, or from the range start when no "From" year is chosen, up to the range end, once each and newest first |
| FilterPanel.YearFromSelect | src/components/filter-panel/filter-panel.tsx:140-142 | the empty option means no year |
| FilterPanel.YearSelectRoundTrip | src/components/filter-panel/filter-panel.tsx:140-142 | choosing a listed year reports that year: the option's text reads back as its number |
| FilterPanel.ParsePriceInput | src/components/filter-panel/filter-panel.tsx:285-288 | a price box with no digit means no bound; otherwise the bound is the number its digits spell |
| FilterPanel.PriceInputRoundTrip | src/components/filter-panel/filter-panel.tsx:285-288 | parsing the text shown for a bound gives back its magnitude, because the minus sign is discarded |
| FilterPanel.PriceInputIgnoresSeparators | src/components/filter-panel/filter-panel.tsx:285-288 | non-digit characters typed around a number do not change the parsed price |
| FilterPanel.MileageFromSlider | src/components/filter-panel/filter-panel.tsx:352-357 | moving the slider to the range maximum means "no limit"; any other position is stored as it is |
| FilterPanel.MileageSliderRoundTrip | src/components/filter-panel/filter-panel.tsx:350-357 | after any move, the slider is drawn where it was moved |
| FilterPanel.MileageAnyAfterSlide | src/components/filter-panel/filter-panel.tsx:352-367 | moving the slider to the maximum, or to 0, makes the caption read "Any" |
| FilterPanel.MileageShowsAny | src/components/filter-panel/filter-panel.tsx:362-366 | the mileage caption reads "Any" exactly when the limit is null or 0, the falsy values of the `? :` test |
| SearchableSelect.SelectedOption | src/components/filter-panel/searchable-select.tsx:72-75 | the selected option exists iff some option carries the value, and it is the first option that does |
| SearchableSelect.FilteredOptions | src/components/filter-panel/searchable-select.tsx:77-83 | an empty search lists every option; otherwise an option is listed iff its lower-cased label contains the lower-cased search; the listing keeps the options' order |
| SearchableSelect.SearchIgnoresCase | src/components/filter-panel/searchable-select.tsx:79-81 | lower-casing the search text does not change the list |
| SearchableSelect.VerbatimMatchListed | src/components/filter-panel/searchable-select.tsx:77-83 | an option whose label contains the search text verbatim is always listed |
| SearchableSelect.DisplayText | src/components/filter-panel/searchable-select.tsx:152-154 | the caption is the disabled message when disabled with a non-empty message; otherwise it is the selected label if non-empty, and the placeholder if not |
| SearchableSelect.ShowsClearButton | src/components/filter-panel/searchable-select.tsx:157 | the clear button is there exactly when a value is set and the select is enabled; the ClearClick case of Step says what pressing it does |
| SearchableSelect.Choose | src/components/filter-panel/searchable-select.tsx:106-110 | choosing an option reports its value, closes the select and clears the search |
| SearchableSelect.Step | src/components/filter-panel/searchable-select.tsx:84-222 | the toggle flips the list unless the select is disabled and keeps the search; the clear button reports null; clicking a listed option, or Enter with a single match, chooses it, and a click off the list does nothing; Escape and a press outside close and clear; typing edits the search only while open; a reported value is always an option's value |
| SearchableSelect.OptionClickChoosesListed | src/components/filter-panel/searchable-select.tsx:205-209 | clicking a listed option reports the value of an option the search matched, then closes the list and clears the search |
| SearchableSelect.DisabledIsInert | src/components/filter-panel/searchable-select.tsx:136-157 | a disabled select that starts closed stays closed and never calls `onChange`, whatever events arrive |
| SearchableSelect.RunReportsOptions | src/components/filter-panel/searchable-select.tsx:106-125 | every value reported during any run of events is null or the value of one of the options |
| SearchableSelect.ToggleKeepsSearch | src/components/filter-panel/searchable-select.tsx:136 | closing and reopening with the toggle keeps the search text |
| RangeSlider.EffectiveMin | src/components/filter-panel/range-slider.tsx:48-49 | the min handle shows its local value only while that handle is dragged; otherwise it shows the parent's value, or the range minimum |
| RangeSlider.EffectiveMax | src/components/filter-panel/range-slider.tsx:50-51 | the max handle shows its local value only while that handle is dragged; otherwise it shows the parent's value, or the range maximum |
| RangeSlider.ValueFromPercent | src/components/filter-panel/range-slider.tsx:58-65 | a stepped value is clamped into the range and left alone when already inside it |
| RangeSlider.TrackClickAsWritten | src/components/filter-panel/range-slider.tsx:67-84 | as written, a click moves whichever handle is nearer, and a tie goes to the min handle |
| RangeSlider.TrackClickCrossesHandles | src/components/filter-panel/range-slider.tsx:74-81 | with both handles at 5 on 0..10, a click at 8 moves the min handle past the max handle (see Findings) |
| RangeSlider.TrackClickCrossesOnlyWhenCoincident | src/components/filter-panel/range-slider.tsx:74-81 | with ordered handles, the written click crosses them only when the two coincide and the click lies above them |
| RangeSlider.TrackClickAsWrittenKeepsOrder | src/components/filter-panel/range-slider.tsx:74-81 | apart from a click above coincident handles, the written click never puts the moved handle on the wrong side of the other |
| RangeSlider.TrackClick | src/components/filter-panel/range-slider.tsx:67-84 | the corrected click moves the nearer handle to the clicked value; on a tie above the coincident handles it moves the max handle; it agrees with the written code whenever the handles differ |
| RangeSlider.TrackClickKeepsOrder | src/components/filter-panel/range-slider.tsx:74-81 | the corrected click never puts the moved handle on the wrong side of the other |
| RangeSlider.MouseDown | src/components/filter-panel/range-slider.tsx:179-208 | pressing a handle starts a drag of it, with both local values taken from the parent's values |
| RangeSlider.MouseDownKeepsPositions | src/components/filter-panel/range-slider.tsx:179-208 | pressing a handle moves neither handle |
| RangeSlider.MouseMove | src/components/filter-panel/range-slider.tsx:86-103 | while dragging, the dragged value follows the pointer but never passes the other handle; with no drag, a move does nothing |
| RangeSlider.MouseUp | src/components/filter-panel/range-slider.tsx:117-127 | releasing commits the dragged handle's local value if there is one, then ends the drag |
| RangeSlider.TypedMin | src/components/filter-panel/range-slider.tsx:223-227 | a typed minimum is capped at the max handle; text that does not parse clears the minimum |
| RangeSlider.TypedMax | src/components/filter-panel/range-slider.tsx:244-248 | a typed maximum is floored at the min handle; text that does not parse clears the maximum |
| RangeSlider.Step | src/components/filter-panel/range-slider.tsx:67-138 | the component runs the written track click (`AsWritten`); a click changes only the parent's values, by the rule's change; typing changes only the parent's values; a press or move changes only the drag; a release ends any drag; no event alters the range bounds |
| RangeSlider.OrderedHandles | src/components/filter-panel/range-slider.tsx:48-51 | under the invariant, both handles lie in the range and the min handle is never right of the max handle |
| RangeSlider.StepKeepsOrder | src/components/filter-panel/range-slider.tsx:67-138 | under either click rule, every plausible event preserves the invariant; for the written rule, a click above coincident handles is not plausible |
| RangeSlider.StepAsWrittenBreaksOrder | src/components/filter-panel/range-slider.tsx:74-81 | on 0..10 with both handles at 5, the component's click at 8 breaks the invariant, while the corrected slider admits that click and keeps it |
| RangeSlider.RunKeepsOrder | src/components/filter-panel/range-slider.tsx:67-138 | every plausible sequence of events from an ordered slider keeps the handles ordered and inside the range, for the written handler away from the crossing click and for the corrected one throughout |
| RangeSlider.FreshSliderOrdered | src/components/filter-panel/range-slider.tsx:41-51 | a fresh slider on a non-empty range, with no values set, satisfies the invariant |
| SingleSlider.EffectiveValue | src/components/filter-panel/single-slider.tsx:31-32 | the handle shows its local value while dragging; otherwise it shows the parent's value, or the maximum |
| SingleSlider.Commit | src/components/filter-panel/single-slider.tsx:54-75 | the maximum is reported as null exactly when null-at-max is set; any other value is reported as it is |
| SingleSlider.TrackClick | src/components/filter-panel/single-slider.tsx:48-57 | a track click reports the clamped value, which lies in the range |
| SingleSlider.MouseDown | src/components/filter-panel/single-slider.tsx:130-133 | pressing the handle starts a drag at the shown value without moving the handle |
| SingleSlider.MouseMove | src/components/filter-panel/single-slider.tsx:59-71 | during a drag the local value follows the clamped pointer position; otherwise nothing changes |
| SingleSlider.MouseUp | src/components/filter-panel/single-slider.tsx:73-79 | releasing reports the local value iff there is one, then goes idle |
| SingleSlider.NullReadsAny | src/components/filter-panel/single-slider.tsx:146-148 | a stored null is drawn at the maximum, so with null-at-max the caption reads "Any" |
| SingleSlider.ShowsAny | src/components/filter-panel/single-slider.tsx:146-148 | the caption never reads "Any" without null-at-max; outside a drag it reads "Any" exactly when the value is null or the maximum itself |
| SingleSlider.CommitRoundTrip | src/components/filter-panel/single-slider.tsx:31-75 | after a commit the handle is drawn at the committed value, and the caption reads "Any" iff that value is the maximum under null-at-max |
| SingleSlider.DragReportsLastMove | src/components/filter-panel/single-slider.tsx:59-79 | a full drag (press, moves, release) reports the clamped position of the last move |
| SingleSlider.MovesLast | src/components/filter-panel/single-slider.tsx:59-71 | during a drag, a series of moves leaves the local value at the clamped position of the last move |
| Pagination.PageRun | src/components/listings-page/pagination.tsx:51-68 | a run of page buttons holds each page from lo to hi once, in order |
| Pagination.GetPageNumbers | src/components/listings-page/pagination.tsx:47-79 | every page button in the strip names a page between 1 and the total, whatever the current page |
| Pagination.SmallTotalListsEveryPage | src/components/listings-page/pagination.tsx:50-55 | with up to seven pages, every page is listed in order and there is no ellipsis |
| Pagination.LargeTotalShowsEnds | src/components/listings-page/pagination.tsx:57-76 | beyond seven pages, the strip starts with page 1 and ends with the last page |
| Pagination.WindowShown | src/components/listings-page/pagination.tsx:63-68 | beyond seven pages, the pages next to the current page (excluding the two ends) are shown |
| Pagination.StartEllipsisIff | src/components/listings-page/pagination.tsx:50-61 | the leading ellipsis appears iff there are more than seven pages and the current page is past 3 |
| Pagination.EndEllipsisIff | src/components/listings-page/pagination.tsx:50-72 | the trailing ellipsis appears iff there are more than seven pages and the current page is before total − 2 |
| Pagination.LongStripLayout | src/components/listings-page/pagination.tsx:57-76 | beyond seven pages, the strip is page 1, the optional leading ellipsis, the pages from max(2, current − 1) to min(total − 1, current + 1), the optional trailing ellipsis and the last page |
| Pagination.NeighbouringPagesConsecutive | src/components/listings-page/pagination.tsx:57-76 | beyond seven pages, two page buttons side by side always show consecutive pages |
| Pagination.EllipsesHidePages | src/components/listings-page/pagination.tsx:59-72 | beyond seven pages, an ellipsis always sits between two page buttons and stands for at least one skipped page |
| Pagination.PagesIncrease | src/components/listings-page/pagination.tsx:47-79 | page numbers strictly increase along the strip, so none is shown twice |
| Pagination.AtMostSevenItems | src/components/listings-page/pagination.tsx:47-79 | the strip never holds more than seven items |
| Pagination.InRangeGapless | src/components/listings-page/pagination.tsx:47-79 | for a current page in range, consecutive page buttons differ by one unless an ellipsis separates them |
| Pagination.EveryPageAccountedFor | src/components/listings-page/pagination.tsx:47-79 | in a gapless strip, every page between a button and the last button is shown or hidden behind an ellipsis |
| Pagination.InRangeCoversAllPages | src/components/listings-page/pagination.tsx:47-79 | for a current page in range, every page from 1 to the total is shown or hidden behind an ellipsis |
| Pagination.PrevTarget | src/components/listings-page/pagination.tsx:91-109 | "previous" is enabled past page 1 and then goes to the page before |
| Pagination.NextTarget | src/components/listings-page/pagination.tsx:91-164 | "next" is enabled before the last page and then goes to the page after |
| Pagination.NavigationStaysInRange | src/components/listings-page/pagination.tsx:91-164 | on a rendered strip, at least one of the two buttons is enabled, and both lead to pages in range |
| Pagination.Renders | src/components/listings-page/pagination.tsx:91 | the strip is rendered exactly when there is more than one page |
| ListingsPage.ShownRangeBounds | src/components/listings-page/listings-page.tsx:45-46 | for a page that exists, "Showing a–b" lies within 1..total and spans at most one page |
| ListingsPage.StartItem | src/components/listings-page/listings-page.tsx:45 | for a page from 1 on, the first position shown is at least 1, and page 1 starts at position 1 |
| ListingsPage.EndItem | src/components/listings-page/listings-page.tsx:46 | the last position shown is at most the total and at most the end of the page, and it is one of the two |
| ListingsPage.ShowsRange | src/components/listings-page/listings-page.tsx:61 | the "Showing" line never appears while loading; otherwise it appears exactly when there is at least one car |
| ListingsPage.ConsecutivePagesAdjoin | src/components/listings-page/listings-page.tsx:45-46 | each page's range starts right after the previous page's range ends |
| ListingsPage.ContentFor | src/components/listings-page/listings-page.tsx:75-125 | the content is skeletons (one per page slot) while loading, the empty state when nothing came back, and otherwise the cards, with pagination iff there is more than one page |
| ListingsPage.PaginationOnlyWithResults | src/components/listings-page/listings-page.tsx:75-125 | pagination appears only beside results, and only for more than one page |
| Countdown.Full | src/hooks/use-countdown.ts:26-40 | the full count is the duration rounded up to whole seconds |
| Countdown.Remaining | src/hooks/use-countdown.ts:50-51 | the count is the remaining time rounded up to whole seconds; it is zero exactly when the time has run out |
| Countdown.RemainingAtMostFull | src/hooks/use-countdown.ts:26-51 | once time has started to pass, the count never exceeds the full count |
| Countdown.RemainingNonIncreasing | src/hooks/use-countdown.ts:50-51 | the count never rises as more time elapses |
| Countdown.Start | src/hooks/use-countdown.ts:26-47 | a start, reset or enable shows the full count and restarts the clock from now |
| Countdown.Tick | src/hooks/use-countdown.ts:42-61 | a tick does nothing while disabled; otherwise it fires iff the duration has elapsed, and firing restarts the countdown |
| Countdown.TicksCountDown | src/hooks/use-countdown.ts:49-61 | between restarts, a later tick never shows more seconds than an earlier one |
| Countdown.DeadlineRestarts | src/hooks/use-countdown.ts:55-60 | a tick at or after the deadline fires once and starts a fresh countdown from that instant |

## Left out

- Network, caching and retries are not modelled: `fetch`, react-query's caching, retries and `fetchNextPage`, and the manufacturers and models hooks. The model takes one `CarsResponse`, or none.
- CarsPage.ShownAsWritten models the page as written: it reads `items`, `total` and `total_pages` from the infinite-query result itself, so it always shows nothing (see Findings). The corrected CarsPage.ShownData reads the first fetched page; the flattening of later pages is not modelled, because nothing fetches them.
- No polling or new-listing detection is modelled, because the source sets no refetch interval (src/hooks/use-get-cars.ts:86-96).
- JavaScript `number` fields are integers in the model: prices, predictions, kilometres, views, ids, durations and clock readings (src/hooks/use-get-cars.ts:5-22) are unbounded `int`. So a fractional `predicted_price` or `pred_min_price` cannot arise, and `String(n)` in `getCars` is modelled only for integer text, never "1500.5". The deal score, badge and savings properties use only comparisons and subtraction, so they carry over to fractional values unchanged.
- Currency, number and mileage display are not modelled: `formatPrice`, `formatMileage` and `toLocaleString` are locale-dependent `Intl` formatting.
- `formatEngineVolume` and the engine-volume `parseFloat` input parser are not modelled, because they are floating-point formatting and parsing.
- `getPercent` and the pointer-to-percent arithmetic are not modelled, because they are floating point. The sliders receive the stepped value.
- RangeSlider.TypedMin: the `parseFloat` of the typed text is a parameter (`parsed`), not modelled character by character.
- RangeSlider.TypedMax: the `parseFloat` of the typed text is a parameter (`parsed`), not modelled character by character.
- RangeSlider.RunKeepsOrder assumes that a drag is not interrupted by a parent's change or by typing, and that typed values lie in the range. Those are the events `Plausible` admits; a typed value outside the range is passed on as it is. For the component as written (`AsWritten`), `Plausible` also excludes a track click above two coincident handles, because the written handler crosses the handles there (see Findings and RangeSlider.StepAsWrittenBreaksOrder); only the corrected rule keeps the handles ordered on that click.
- SearchableSelect.FilteredOptions: case folding covers the ASCII letters A-Z only. `toLowerCase` folds all of Unicode, so "É" matches "é" in the component but not in the model.
- SearchableSelect.SearchIgnoresCase holds for the ASCII folding only, for the same reason: Unicode case mapping is not modelled.
- CarsPage.SortedCars: the "newest" key (`Date.parse` of `created_at`) and the "best deals" ratio (`price / predicted`, a float) are parameters.
- CarsPage.LookupItems: `localeCompare` collation is a parameter, given as an integer rank of each label.
- The countdown's `progress` percentage is not modelled, because it is floating point. Interval scheduling and `onComplete` identity are not modelled either; the model takes the clock reading of each tick.
- FilterPanel.DefaultYearRange takes the current year as a parameter instead of reading the clock.
- The mobile drawer's open and close buttons, the focus effect and the listener registration are not modelled, because they only set a flag or touch the DOM.
- `dropdown.tsx`, the skeleton, empty-state, view-toggle and sort-select markup are not modelled, because they have no logic of their own.
- The grid or list view mode is not modelled, because both views render the same cards.

## Findings

| source | as written | input that shows it | evidently intended | confidence | as-written member | corrected member |
|---|---|---|---|---|---|---|
| src/components/cars-page/cars-page.tsx:68 | `queryParams.page` is built but dropped: `useGetCars` omits `page` and asks for the infinite query's `initialPageParam` 1, and nothing calls `fetchNextPage` | any current page other than 1, e.g. page 3 after clicking it in the strip: the request still carries `page=1` | the request asks the server for the page the user picked | not executed | CarsPage.RequestIgnoresCurrentPage | CarsPage.RequestAsksCurrentPage |
| src/components/filter-panel/range-slider.tsx:74-81 | a track click moves the min handle whenever `distToMin <= distToMax`, including when the handles coincide and the click lies above them | range 0..10, both handles at 5, click at 8: `onChangeMin(8)` while the max stays 5 | the min handle never passes the max handle; on a tie above, the max handle moves | not executed | RangeSlider.TrackClickCrossesHandles | RangeSlider.TrackClickKeepsOrder |
| src/components/cars-page/cars-page.tsx:90-92 | `data?.items`, `data?.total` and `data?.total_pages` are read from the `useInfiniteQuery` result, which has no `select` (src/hooks/use-get-cars.ts:86-96) and so holds only `pages` and `pageParams` | a first page with one car and a total of 1: the page shows no cars, a total of 0 and one page | the page shows the fetched page's cars, total and page count | not executed | CarsPage.ShownAsWrittenDropsResponse | CarsPage.ShownFirstFetch |
