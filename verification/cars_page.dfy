/**
 * `CarsPage`, the page controller: its state (filters, current page, sort,
 * favourites), the query parameters it derives, the request they turn into,
 * the client-side sorts, and the lookups it builds for the filter panel and
 * the cards.
 */
module CarsPage {
  import opened Options
  import opened CarsApi
  import opened FilterTypes
  import CarCard
  import Seqs
  import Strings

  /** `PAGE_SIZE`. */
  const PageSize := 16

  datatype SortOption = Newest | PriceAsc | PriceDesc | MileageAsc | BestDeals

  datatype PageState = PageState(filters: FilterState, currentPage: int, sortBy: SortOption, favorites: set<int>)

  /** The state on first render: no filters, page 1, newest first, no favourites. */
  const InitialState := PageState(DefaultFilters, 1, Newest, {})

  /** The object `queryParams` builds. */
  datatype QueryParams = QueryParams(
    manId: Option<int>,
    modelId: Option<int>,
    fuelTypeIds: Option<seq<int>>,
    gearTypeIds: Option<seq<int>>,
    prodYearFrom: Option<int>,
    prodYearTo: Option<int>,
    priceFrom: Option<int>,
    priceTo: Option<int>,
    mileageMax: Option<int>,
    engineVolumeMin: Option<int>,
    engineVolumeMax: Option<int>,
    dealsOnly: Option<bool>,
    pageSize: int,
    page: int
  )

  /** `queryParams`: empty id lists and an unset deals flag become null. */
  function ToQueryParams(s: PageState): (q: QueryParams)
    ensures q.fuelTypeIds.None? <==> |s.filters.fuelTypeIds| == 0
    ensures q.fuelTypeIds.Some? ==> q.fuelTypeIds.value == s.filters.fuelTypeIds
    ensures q.gearTypeIds.None? <==> |s.filters.gearTypeIds| == 0
    ensures q.gearTypeIds.Some? ==> q.gearTypeIds.value == s.filters.gearTypeIds
    ensures q.dealsOnly == if s.filters.dealsOnly then Some(true) else None
    ensures q.manId == s.filters.manufacturerId && q.modelId == s.filters.modelId
    ensures q.prodYearFrom == s.filters.yearMin && q.prodYearTo == s.filters.yearMax
    ensures q.priceFrom == s.filters.priceMin && q.priceTo == s.filters.priceMax
    ensures q.mileageMax == s.filters.mileageMax
    ensures q.engineVolumeMin == s.filters.engineVolumeMin && q.engineVolumeMax == s.filters.engineVolumeMax
    ensures q.pageSize == 16 && q.page == s.currentPage
  {
    var f := s.filters;
    QueryParams(
      f.manufacturerId, f.modelId,
      if |f.fuelTypeIds| > 0 then Some(f.fuelTypeIds) else None,
      if |f.gearTypeIds| > 0 then Some(f.gearTypeIds) else None,
      f.yearMin, f.yearMax, f.priceMin, f.priceMax,
      f.mileageMax, f.engineVolumeMin, f.engineVolumeMax,
      if f.dealsOnly then Some(true) else None,
      PageSize, s.currentPage)
  }

  /**
   * The object as `useGetCars` reads it through `GetCarsParams`: keys that type
   * does not name (the id lists, mileage, engine volume, deals) are not read,
   * and `fuel_type_id`, `gear_type_id` and `search` are never set.
   */
  function ToGetCarsParams(q: QueryParams): (p: GetCarsParams)
    ensures p.manId == q.manId && p.modelId == q.modelId
    ensures p.fuelTypeId.None? && p.gearTypeId.None? && p.search.None?
    ensures p.prodYearFrom == q.prodYearFrom && p.prodYearTo == q.prodYearTo
    ensures p.priceFrom == q.priceFrom && p.priceTo == q.priceTo
    ensures p.pageSize == Some(q.pageSize) && p.page == Some(q.page)
  {
    GetCarsParams(q.manId, q.modelId, None, None, q.prodYearFrom, q.prodYearTo,
                  q.priceFrom, q.priceTo, None, Some(q.pageSize), Some(q.page))
  }

  /** The first (and, with nothing calling `fetchNextPage`, only) request: the infinite query's first page. */
  function RequestAsWritten(s: PageState): (r: Query)
    ensures Lookup(r, "page") == Some("1") && Lookup(r, "page_size") == Some("16")
  {
    assert Strings.IntToString(1) == "1" && Strings.IntToString(16) == "16";
    QueryFn(ToGetCarsParams(ToQueryParams(s)), InitialPageParam)
  }

  /** On any page but the first the request still asks for page 1: the page the user picked never reaches the server. */
  lemma RequestIgnoresCurrentPage(s: PageState)
    requires s.currentPage != 1
    ensures Lookup(RequestAsWritten(s), "page") == Some("1")
    ensures Lookup(RequestAsWritten(s), "page") != Some(Strings.IntToString(s.currentPage))
  {
    assert Strings.IntToString(1) == "1";
    Strings.IntToStringRoundTrip(1);
    Strings.IntToStringRoundTrip(s.currentPage);
  }

  /** The request for the page the user is on. */
  function Request(s: PageState): (r: Query)
    ensures Lookup(r, "page") == Some(Strings.IntToString(s.currentPage))
    ensures Lookup(r, "page_size") == Some("16")
  {
    assert Strings.IntToString(16) == "16";
    QueryFn(ToGetCarsParams(ToQueryParams(s)), s.currentPage)
  }

  /** The request asks for the current page, 16 cars at a time. */
  lemma RequestAsksCurrentPage(s: PageState)
    ensures Lookup(Request(s), "page") == Some(Strings.IntToString(s.currentPage))
    ensures ParseNumber(Lookup(Request(s), "page")) == Some(s.currentPage)
    ensures Lookup(Request(s), "page_size") == Some(Strings.IntToString(PageSize))
  {
    Strings.IntToStringRoundTrip(s.currentPage);
  }

  /** The filters as far as they reach the request. */
  predicate SameRequestFilters(f: FilterState, g: FilterState)
  {
    && f.manufacturerId == g.manufacturerId && f.modelId == g.modelId
    && f.yearMin == g.yearMin && f.yearMax == g.yearMax
    && f.priceMin == g.priceMin && f.priceMax == g.priceMax
  }

  /**
   * Fuel and gear checkboxes, the mileage limit, the engine volumes and the
   * deals toggle change `queryParams` but never the request.
   */
  lemma UnsentFilters(s: PageState, f: FilterState)
    requires SameRequestFilters(s.filters, f)
    ensures Request(s.(filters := f)) == Request(s)
    ensures RequestAsWritten(s.(filters := f)) == RequestAsWritten(s)
  {
  }

  /** The request reports the manufacturer, model, years and prices exactly. */
  lemma RequestCarriesFilters(s: PageState)
    ensures var p := DecodeParams(Request(s));
      && p.manId == s.filters.manufacturerId && p.modelId == s.filters.modelId
      && p.prodYearFrom == s.filters.yearMin && p.prodYearTo == s.filters.yearMax
      && p.priceFrom == s.filters.priceMin && p.priceTo == s.filters.priceMax
      && p.fuelTypeId.None? && p.gearTypeId.None? && p.search.None?
  {
    var p := ToGetCarsParams(ToQueryParams(s));
    QueryRoundTrip(p.(pageSize := Some(p.pageSize.GetOr(DefaultPageSize)), page := Some(s.currentPage)));
  }

  /** `handleFilterChange`: new filters, back to page 1. */
  function HandleFilterChange(s: PageState, f: FilterState): (r: PageState)
    ensures r.filters == f && r.currentPage == 1
    ensures r.sortBy == s.sortBy && r.favorites == s.favorites
  {
    s.(filters := f, currentPage := 1)
  }

  /** After a filter change the request asks for the first page. */
  lemma FilterChangeRequestsFirstPage(s: PageState, f: FilterState)
    ensures Lookup(Request(HandleFilterChange(s, f)), "page") == Some("1")
  {
    RequestAsksCurrentPage(HandleFilterChange(s, f));
    assert Strings.IntToString(1) == "1";
  }

  /** `handleSortChange`: only the sort changes. */
  function HandleSortChange(s: PageState, sort: SortOption): (r: PageState)
    ensures r.sortBy == sort
    ensures r.filters == s.filters && r.currentPage == s.currentPage && r.favorites == s.favorites
  {
    s.(sortBy := sort)
  }

  /** Sorting is client-side: a sort change leaves the request as it was. */
  lemma SortChangeKeepsRequest(s: PageState, sort: SortOption)
    ensures Request(HandleSortChange(s, sort)) == Request(s)
  {
  }

  /** `handlePageChange`. */
  function HandlePageChange(s: PageState, page: int): (r: PageState)
    ensures r.currentPage == page
    ensures r.filters == s.filters && r.sortBy == s.sortBy && r.favorites == s.favorites
  {
    s.(currentPage := page)
  }

  /** `handleFavoriteToggle`: add the car when the flag is set, else delete it. */
  function ToggleFavorite(favorites: set<int>, carId: int, isFavorite: bool): (r: set<int>)
    ensures carId in r <==> isFavorite
    ensures forall other :: other != carId ==> (other in r <==> other in favorites)
  {
    if isFavorite then favorites + {carId} else favorites - {carId}
  }

  /** Repeating a toggle with the same flag changes nothing more. */
  lemma ToggleFavoriteIdempotent(favorites: set<int>, carId: int, isFavorite: bool)
    ensures ToggleFavorite(ToggleFavorite(favorites, carId, isFavorite), carId, isFavorite)
            == ToggleFavorite(favorites, carId, isFavorite)
  {
  }

  /** Marking and then unmarking a car that was not a favourite restores the set. */
  lemma ToggleFavoriteUndo(favorites: set<int>, carId: int)
    requires carId !in favorites
    ensures ToggleFavorite(ToggleFavorite(favorites, carId, true), carId, false) == favorites
  {
  }

  function FavoriteToggled(s: PageState, carId: int, isFavorite: bool): (r: PageState)
    ensures r.favorites == ToggleFavorite(s.favorites, carId, isFavorite)
    ensures r.filters == s.filters && r.currentPage == s.currentPage && r.sortBy == s.sortBy
  {
    s.(favorites := ToggleFavorite(s.favorites, carId, isFavorite))
  }

  /** The cars, total and page count shown. */
  datatype Shown = Shown(cars: seq<Car>, total: int, totalPages: int)

  /** What is shown when nothing has arrived: no cars, a total of 0, one page. */
  const NothingShown := Shown([], 0, 1)

  /**
   * `data?.items ?? []`, `data?.total ?? 0` and `data?.total_pages ?? 1` as
   * written. `data` is the infinite-query result, which has `pages` and
   * `pageParams` but none of the three fields, so each read is undefined and
   * falls back to its default whatever the server sent.
   */
  function ShownAsWritten(data: Option<InfiniteData>): (r: Shown)
    ensures r == NothingShown
  {
    NothingShown
  }

  /** The fields read from the first fetched page, the only one ever fetched; the defaults before it arrives. */
  function ShownData(data: Option<InfiniteData>): (r: Shown)
    ensures data.None? || |data.value.pages| == 0 ==> r == NothingShown
    ensures data.Some? && |data.value.pages| > 0 ==>
              r.cars == data.value.pages[0].items && r.total == data.value.pages[0].total
              && r.totalPages == data.value.pages[0].totalPages
  {
    if data.Some? && |data.value.pages| > 0 then
      var first := data.value.pages[0];
      Shown(first.items, first.total, first.totalPages)
    else NothingShown
  }

  /** As written, a page with cars on it shows none of them, no total and a single page. */
  lemma ShownAsWrittenDropsResponse(response: CarsResponse)
    requires |response.items| > 0
    ensures ShownAsWritten(Some(FirstFetch(response))).cars != response.items
    ensures ShownAsWritten(Some(FirstFetch(response))) == ShownAsWritten(None)
  {
  }

  /** Once the first page arrives, the corrected page shows exactly what the server sent for it. */
  lemma ShownFirstFetch(response: CarsResponse)
    ensures ShownData(Some(FirstFetch(response))).cars == response.items
    ensures ShownData(Some(FirstFetch(response))).total == response.total
    ensures ShownData(Some(FirstFetch(response))).totalPages == response.totalPages
    ensures ShownData(None) == ShownAsWritten(Some(FirstFetch(response)))
  {
  }

  /** The cars kept by the "best deals" sort. */
  predicate HasDealData(c: Car)
  {
    c.hasPredictedPrice && c.predictedPrice.Some?
  }

  function PriceKey(c: Car): int { c.priceUsd }

  function MileageKey(c: Car): int { c.carRunKm }

  /** The reverse order: `(a, b) => key(b) - key(a)`. */
  function Negated(key: Car -> int): Car -> int
  {
    (c: Car) => -key(c)
  }

  /** The comparison key each sort orders by, ascending. */
  function SortKey(sortBy: SortOption, timestamp: Car -> int, dealRank: Car -> int): Car -> int
  {
    match sortBy
    case Newest => Negated(timestamp)
    case PriceAsc => PriceKey
    case PriceDesc => Negated(PriceKey)
    case MileageAsc => MileageKey
    case BestDeals => dealRank
  }

  /** The cars a sort starts from: all of them, or for "best deals" those with deal data. */
  function SortInput(cars: seq<Car>, sortBy: SortOption): seq<Car>
  {
    if sortBy == BestDeals then Seqs.Filter(cars, HasDealData) else cars
  }

  /**
   * `sortedCars`. The "newest" order compares parsed `created_at` instants and
   * "best deals" compares price-to-prediction ratios; both orderings arrive as
   * integer keys (`timestamp`, `dealRank`) since date parsing and floating point
   * are not modelled.
   */
  function SortedCars(cars: seq<Car>, sortBy: SortOption, timestamp: Car -> int, dealRank: Car -> int): (r: seq<Car>)
    ensures sortBy != BestDeals ==> multiset(r) == multiset(cars)
    ensures sortBy == BestDeals ==> forall c :: multiset(r)[c] == if HasDealData(c) then multiset(cars)[c] else 0
    ensures sortBy == Newest ==> forall i, j :: 0 <= i < j < |r| ==> timestamp(r[i]) >= timestamp(r[j])
    ensures sortBy == PriceAsc ==> forall i, j :: 0 <= i < j < |r| ==> r[i].priceUsd <= r[j].priceUsd
    ensures sortBy == PriceDesc ==> forall i, j :: 0 <= i < j < |r| ==> r[i].priceUsd >= r[j].priceUsd
    ensures sortBy == MileageAsc ==> forall i, j :: 0 <= i < j < |r| ==> r[i].carRunKm <= r[j].carRunKm
    ensures sortBy == BestDeals ==> forall i, j :: 0 <= i < j < |r| ==> dealRank(r[i]) <= dealRank(r[j])
  {
    match sortBy
    case Newest => Descending(cars, timestamp)
    case PriceAsc => Seqs.SortBy(cars, PriceKey)
    case PriceDesc => Descending(cars, PriceKey)
    case MileageAsc => Seqs.SortBy(cars, MileageKey)
    case BestDeals => BestDealsOrder(cars, dealRank)
  }

  /** A stable sort by `key`, largest first. */
  function Descending(cars: seq<Car>, key: Car -> int): (r: seq<Car>)
    ensures multiset(r) == multiset(cars)
    ensures forall i, j :: 0 <= i < j < |r| ==> key(r[i]) >= key(r[j])
  {
    var r := Seqs.SortBy(cars, Negated(key));
    assert forall i, j :: 0 <= i < j < |r| ==> Negated(key)(r[i]) <= Negated(key)(r[j]);
    r
  }

  /** The cars with deal data, stably sorted by `dealRank`. */
  function BestDealsOrder(cars: seq<Car>, dealRank: Car -> int): (r: seq<Car>)
    ensures forall c :: multiset(r)[c] == if HasDealData(c) then multiset(cars)[c] else 0
    ensures forall i, j :: 0 <= i < j < |r| ==> dealRank(r[i]) <= dealRank(r[j])
  {
    var kept := Seqs.Filter(cars, HasDealData);
    Seqs.FilterCounts(cars, HasDealData);
    Seqs.SortBy(kept, dealRank)
  }

  /** Cars that tie under the chosen order keep the order the server sent them in. */
  lemma SortedCarsStable(cars: seq<Car>, sortBy: SortOption, timestamp: Car -> int, dealRank: Car -> int, k: int)
    ensures var key := SortKey(sortBy, timestamp, dealRank);
      Seqs.WithKey(SortedCars(cars, sortBy, timestamp, dealRank), key, k) == Seqs.WithKey(SortInput(cars, sortBy), key, k)
  {
    assert SortedCars(cars, sortBy, timestamp, dealRank)
           == Seqs.SortBy(SortInput(cars, sortBy), SortKey(sortBy, timestamp, dealRank));
    Seqs.SortByStable(SortInput(cars, sortBy), SortKey(sortBy, timestamp, dealRank), k);
  }

  /** "Best deals" drops exactly the cars without both a prediction flag and a predicted price. */
  lemma BestDealsKeepsDealCars(cars: seq<Car>, timestamp: Car -> int, dealRank: Car -> int, c: Car)
    ensures c in SortedCars(cars, BestDeals, timestamp, dealRank) <==> c in cars && HasDealData(c)
  {
    var r := SortedCars(cars, BestDeals, timestamp, dealRank);
    assert c in r <==> multiset(r)[c] > 0;
    assert c in cars <==> multiset(cars)[c] > 0;
  }

  /** `FUEL_TYPE_LABELS`. */
  const FuelTypeLabels: map<int, string> := map[1 := "Petrol", 2 := "Diesel", 3 := "Hybrid",
                                                4 := "Electric", 5 := "LPG", 6 := "CNG"]

  /** `GEAR_TYPE_LABELS`. */
  const GearTypeLabels: map<int, string> := map[1 := "Manual", 2 := "Automatic", 3 := "Tiptronic", 4 := "CVT"]

  /** The table's label, else `<fallback> <id>`. */
  function LabelFor(table: map<int, string>, fallback: string, id: int): (r: string)
    ensures id in table ==> r == table[id]
    ensures id !in table ==> r == fallback + " " + Strings.IntToString(id)
  {
    if id in table then table[id] else fallback + " " + Strings.IntToString(id)
  }

  /** The non-null ids picked by `ids.add`, in order of the cars. */
  function PresentIds(ids: seq<Option<int>>): (r: seq<int>)
    ensures forall id :: id in r <==> Some(id) in ids
    decreases |ids|
  {
    if |ids| == 0 then []
    else
      assert ids == [ids[0]] + ids[1..];
      (if ids[0].Some? then [ids[0].value] else []) + PresentIds(ids[1..])
  }

  /** One lookup item per distinct id, in first-seen order, labelled from the table. */
  function Labelled(ids: seq<Option<int>>, table: map<int, string>, fallback: string): (r: seq<LookupItem>)
    ensures Seqs.NoDuplicates(r)
    ensures forall it :: it in r ==> it.name == LabelFor(table, fallback, it.id)
    ensures forall id :: (exists it :: it in r && it.id == id) <==> Some(id) in ids
  {
    var distinct := Seqs.Distinct(PresentIds(ids));
    var r := seq(|distinct|, k requires 0 <= k < |distinct| => LookupItem(distinct[k], LabelFor(table, fallback, distinct[k])));
    forall id | id in distinct
      ensures exists it :: it in r && it.id == id
    {
      var k :| 0 <= k < |distinct| && distinct[k] == id;
      assert r[k] in r;
    }
    r
  }

  /**
   * The label order `(a, b) => a.label.localeCompare(b.label)`, given as a
   * collation rank of each label.
   */
  function ByLabel(collate: string -> int): LookupItem -> int
  {
    (it: LookupItem) => collate(it.name)
  }

  /** The items of `Labelled`, sorted by label: one per distinct id, each with its table label. */
  function LookupItems(ids: seq<Option<int>>, table: map<int, string>, fallback: string, collate: string -> int): (r: seq<LookupItem>)
    ensures forall id :: (exists it :: it in r && it.id == id) <==> Some(id) in ids
    ensures forall i, j :: 0 <= i < j < |r| ==> r[i].id != r[j].id
    ensures forall it :: it in r ==> it.name == LabelFor(table, fallback, it.id)
    ensures forall i, j :: 0 <= i < j < |r| ==> collate(r[i].name) <= collate(r[j].name)
  {
    var items := Labelled(ids, table, fallback);
    SortedLabelled(items, table, fallback, collate);
    Seqs.SortBy(items, ByLabel(collate))
  }

  /** Sorting labelled items by label keeps them, keeps each id once and orders the labels. */
  lemma SortedLabelled(items: seq<LookupItem>, table: map<int, string>, fallback: string, collate: string -> int)
    requires Seqs.NoDuplicates(items)
    requires forall it :: it in items ==> it.name == LabelFor(table, fallback, it.id)
    ensures var r := Seqs.SortBy(items, ByLabel(collate));
      && (forall it :: it in r <==> it in items)
      && (forall i, j :: 0 <= i < j < |r| ==> r[i].id != r[j].id)
      && (forall i, j :: 0 <= i < j < |r| ==> collate(r[i].name) <= collate(r[j].name))
  {
    var r := Seqs.SortBy(items, ByLabel(collate));
    Seqs.SortByKeepsNoDuplicates(items, ByLabel(collate));
    Seqs.SortByMembers(items, ByLabel(collate));
    forall i, j | 0 <= i < j < |r|
      ensures r[i].id != r[j].id
    {
      assert r[i] in items && r[j] in items && r[i] != r[j];
      assert r[i].name == LabelFor(table, fallback, r[i].id) && r[j].name == LabelFor(table, fallback, r[j].id);
    }
    forall i, j | 0 <= i < j < |r|
      ensures collate(r[i].name) <= collate(r[j].name)
    {
      assert ByLabel(collate)(r[i]) <= ByLabel(collate)(r[j]);
    }
  }

  function FuelIds(cars: seq<Car>): (r: seq<Option<int>>)
    ensures |r| == |cars| && forall k :: 0 <= k < |cars| ==> r[k] == cars[k].fuelTypeId
  {
    seq(|cars|, k requires 0 <= k < |cars| => cars[k].fuelTypeId)
  }

  function GearIds(cars: seq<Car>): (r: seq<Option<int>>)
    ensures |r| == |cars| && forall k :: 0 <= k < |cars| ==> r[k] == cars[k].gearTypeId
  {
    seq(|cars|, k requires 0 <= k < |cars| => cars[k].gearTypeId)
  }

  /** `fuelTypes`: one item per fuel id present on the page, in label order. */
  function FuelTypes(cars: seq<Car>, collate: string -> int): seq<LookupItem>
  {
    LookupItems(FuelIds(cars), FuelTypeLabels, "Fuel Type", collate)
  }

  /** `gearTypes`: one item per gear id present on the page, in label order. */
  function GearTypes(cars: seq<Car>, collate: string -> int): seq<LookupItem>
  {
    LookupItems(GearIds(cars), GearTypeLabels, "Gear Type", collate)
  }

  /** `Some(id)` is among the fuel ids exactly when some car has that fuel id. */
  lemma FuelIdsPresent(cars: seq<Car>, id: int)
    ensures Some(id) in FuelIds(cars) <==> exists c :: c in cars && c.fuelTypeId == Some(id)
  {
    var ids := FuelIds(cars);
    if Some(id) in ids {
      var k :| 0 <= k < |ids| && ids[k] == Some(id);
      assert cars[k] in cars;
    }
    if exists c :: c in cars && c.fuelTypeId == Some(id) {
      var c :| c in cars && c.fuelTypeId == Some(id);
      var k :| 0 <= k < |cars| && cars[k] == c;
      assert ids[k] == Some(id);
    }
  }

  /** A fuel id is offered iff some car on the page has it; it is offered once, with its label, in label order. */
  lemma FuelTypesOnePerId(cars: seq<Car>, collate: string -> int, id: int)
    ensures var r := FuelTypes(cars, collate);
      && ((exists it :: it in r && it.id == id) <==> exists c :: c in cars && c.fuelTypeId == Some(id))
      && (forall i, j :: 0 <= i < j < |r| ==> r[i].id != r[j].id)
      && (forall it :: it in r && it.id == id ==> it.name == LabelFor(FuelTypeLabels, "Fuel Type", id))
      && (forall i, j :: 0 <= i < j < |r| ==> collate(r[i].name) <= collate(r[j].name))
  {
    FuelIdsPresent(cars, id);
  }

  /** `Some(id)` is among the gear ids exactly when some car has that gear id. */
  lemma GearIdsPresent(cars: seq<Car>, id: int)
    ensures Some(id) in GearIds(cars) <==> exists c :: c in cars && c.gearTypeId == Some(id)
  {
    var ids := GearIds(cars);
    if Some(id) in ids {
      var k :| 0 <= k < |ids| && ids[k] == Some(id);
      assert cars[k] in cars;
    }
    if exists c :: c in cars && c.gearTypeId == Some(id) {
      var c :| c in cars && c.gearTypeId == Some(id);
      var k :| 0 <= k < |cars| && cars[k] == c;
      assert ids[k] == Some(id);
    }
  }

  /** A gear id is offered iff some car on the page has it; it is offered once, with its label, in label order. */
  lemma GearTypesOnePerId(cars: seq<Car>, collate: string -> int, id: int)
    ensures var r := GearTypes(cars, collate);
      && ((exists it :: it in r && it.id == id) <==> exists c :: c in cars && c.gearTypeId == Some(id))
      && (forall i, j :: 0 <= i < j < |r| ==> r[i].id != r[j].id)
      && (forall it :: it in r && it.id == id ==> it.name == LabelFor(GearTypeLabels, "Gear Type", id))
      && (forall i, j :: 0 <= i < j < |r| ==> collate(r[i].name) <= collate(r[j].name))
  {
    GearIdsPresent(cars, id);
  }

  /** `manufacturerLookup`: one entry per id, the last manufacturer with that id winning. */
  function ManufacturerLookup(ms: seq<Manufacturer>): (r: map<int, string>)
    ensures forall id :: id in r <==> exists m :: m in ms && m.manId == id
    decreases |ms|
  {
    if |ms| == 0 then map[]
    else
      var last := ms[|ms| - 1];
      var prefix := ms[..|ms| - 1];
      assert ms == prefix + [last];
      ManufacturerLookup(prefix)[last.manId := last.manufacturerName]
  }

  /** The entry for an id is the name of the last manufacturer listed with it. */
  lemma {:induction false} ManufacturerLookupLastWins(ms: seq<Manufacturer>, k: nat)
    requires k < |ms|
    requires forall j :: k < j < |ms| ==> ms[j].manId != ms[k].manId
    ensures ManufacturerLookup(ms)[ms[k].manId] == ms[k].manufacturerName
    decreases |ms|
  {
    if k < |ms| - 1 {
      var prefix := ms[..|ms| - 1];
      assert prefix[k] == ms[k];
      ManufacturerLookupLastWins(prefix, k);
    }
  }

  /** `lookupMap`: the two label tables, the manufacturer names (empty before they load) and no model table. */
  function CardLookup(manufacturersData: Option<seq<Manufacturer>>): (r: CarCard.LookupMap)
    ensures r.fuelTypes == FuelTypeLabels && r.gearTypes == GearTypeLabels && r.models.None?
    ensures manufacturersData.None? ==> r.manufacturers == Some(map[])
    ensures manufacturersData.Some? ==> r.manufacturers == Some(ManufacturerLookup(manufacturersData.value))
  {
    CarCard.LookupMap(FuelTypeLabels, GearTypeLabels, Some(ManufacturerLookup(manufacturersData.GetOr([]))), None)
  }

  /**
   * The manufacturer a card shows for a car without its own name: the name of
   * the last loaded manufacturer with the car's id.
   */
  lemma CardShowsLastManufacturerName(car: Car, ms: seq<Manufacturer>, k: nat)
    requires car.manufacturerName.None?
    requires k < |ms| && ms[k].manId == car.manId
    requires forall j :: k < j < |ms| ==> ms[j].manId != car.manId
    ensures CarCard.ManufacturerName(car, CardLookup(Some(ms))) == ms[k].manufacturerName
  {
    ManufacturerLookupLastWins(ms, k);
  }

  /** A car without its own name whose id no loaded manufacturer has, or shown before they load, reads "Unknown". */
  lemma CardShowsUnknownManufacturer(car: Car, manufacturersData: Option<seq<Manufacturer>>)
    requires car.manufacturerName.None?
    requires manufacturersData.Some? ==> forall m :: m in manufacturersData.value ==> m.manId != car.manId
    ensures CarCard.ManufacturerName(car, CardLookup(manufacturersData)) == "Unknown"
  {
  }
}
