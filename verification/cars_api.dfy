/**
 * The listings request of `useGetCars`: the car record and response shape,
 * the query-string serialisation done by `getCars` (as an ordered list of
 * key/value pairs, before URL encoding), the page override of the infinite
 * query's `queryFn`, and `getNextPageParam`.
 */
module CarsApi {
  import opened Options
  import Strings
  import Seqs

  /** The fields of a listing that the model's operations read. */
  datatype Car = Car(
    carId: int,
    manId: int,
    modelId: int,
    prodYear: int,
    priceUsd: int,
    carRunKm: int,
    engineVolume: int,
    fuelTypeId: Option<int>,
    gearTypeId: Option<int>,
    views: int,
    predictedPrice: Option<int>,
    hasPredictedPrice: bool,
    predMinPrice: Option<int>,
    manufacturerName: Option<string>,
    modelName: Option<string>,
    createdAt: string
  )

  datatype CarsResponse = CarsResponse(
    items: seq<Car>,
    total: int,
    page: int,
    pageSize: int,
    totalPages: int
  )

  /** `GetCarsParams`; an absent `params` object is `NoParams`. */
  datatype GetCarsParams = GetCarsParams(
    manId: Option<int>,
    modelId: Option<int>,
    fuelTypeId: Option<int>,
    gearTypeId: Option<int>,
    prodYearFrom: Option<int>,
    prodYearTo: Option<int>,
    priceFrom: Option<int>,
    priceTo: Option<int>,
    search: Option<string>,
    pageSize: Option<int>,
    page: Option<int>
  )

  const NoParams := GetCarsParams(None, None, None, None, None, None, None, None, None, None, None)

  const DefaultPageSize := 16

  /** `initialPageParam` of the infinite query. */
  const InitialPageParam := 1

  type Query = seq<(string, string)>

  /** Every key `getCars` can set, in the order it sets them. */
  const KeyOrder: seq<string> := ["man_id", "model_id", "fuel_type_id", "gear_type_id",
                                  "prod_year_from", "prod_year_to", "price_from", "price_to",
                                  "search", "page_size", "page"]

  /** The keys of a list of pairs, in order: of the query, or of the entries `getCars` considers. */
  function Keys<V>(ps: seq<(string, V)>): (ks: seq<string>)
    ensures |ks| == |ps|
    ensures forall i :: 0 <= i < |ps| ==> ks[i] == ps[i].0
  {
    seq(|ps|, i requires 0 <= i < |ps| => ps[i].0)
  }

  /** `URLSearchParams.get`: the value of the first pair with this key. */
  function Lookup(q: Query, key: string): (r: Option<string>)
    ensures r.None? <==> key !in Keys(q)
    decreases |q|
  {
    if |q| == 0 then None
    else if q[0].0 == key then Some(q[0].1)
    else
      assert Keys(q) == [q[0].0] + Keys(q[1..]);
      Lookup(q[1..], key)
  }

  /** A key with the text `getCars` would set for it, or `None` when it skips the key. */
  type Entry = (string, Option<string>)

  /** The `searchParams.set` calls of the present entries, in order. */
  function Emit(es: seq<Entry>): (q: Query)
    ensures |q| <= |es|
    decreases |es|
  {
    if |es| == 0 then []
    else (if es[0].1.Some? then [(es[0].0, es[0].1.value)] else []) + Emit(es[1..])
  }

  /** `v != null ? String(v) : skip`: the numeric parameters. */
  function NumberText(v: Option<int>): Option<string>
  {
    if v.Some? then Some(Strings.IntToString(v.value)) else None
  }

  /** What `getCars` does with each of its eleven keys. */
  function Entries(p: GetCarsParams): (es: seq<Entry>)
    ensures Keys(es) == KeyOrder
  {
    FilterEntries(p) + PagingEntries(p)
  }

  /** The nine optional keys. */
  function FilterEntries(p: GetCarsParams): seq<Entry>
  {
    [("man_id", NumberText(p.manId)),
     ("model_id", NumberText(p.modelId)),
     ("fuel_type_id", NumberText(p.fuelTypeId)),
     ("gear_type_id", NumberText(p.gearTypeId)),
     ("prod_year_from", NumberText(p.prodYearFrom)),
     ("prod_year_to", NumberText(p.prodYearTo)),
     ("price_from", NumberText(p.priceFrom)),
     ("price_to", NumberText(p.priceTo)),
     ("search", if p.search.Some? && p.search.value != "" then p.search else None)]
  }

  /** The two keys that are always set. */
  function PagingEntries(p: GetCarsParams): seq<Entry>
  {
    [("page_size", Some(Strings.IntToString(p.pageSize.GetOr(DefaultPageSize)))),
     ("page", Some(Strings.IntToString(p.page.GetOr(1))))]
  }

  /** The pairs `getCars` sets on its `URLSearchParams`, in order (before encoding). */
  function GetCarsQuery(p: GetCarsParams): (q: Query)
    ensures |q| <= |KeyOrder|
  {
    Emit(Entries(p))
  }

  lemma {:induction false} EmitAppend(a: seq<Entry>, b: seq<Entry>)
    ensures Emit(a + b) == Emit(a) + Emit(b)
    decreases |a|
  {
    if |a| == 0 {
      assert a + b == b;
    } else {
      var ab := a + b;
      assert ab[0] == a[0] && ab[1..] == a[1..] + b;
      EmitAppend(a[1..], b);
      var head: Query := if a[0].1.Some? then [(a[0].0, a[0].1.value)] else [];
      assert Emit(ab) == head + (Emit(a[1..]) + Emit(b));
      assert Emit(a) == head + Emit(a[1..]);
    }
  }

  /** Emitted keys keep the entries' order. */
  lemma {:induction false} EmitKeysOrdered(es: seq<Entry>)
    ensures Seqs.IsSubsequence(Keys(Emit(es)), Keys(es))
    decreases |es|
  {
    if |es| > 0 {
      EmitKeysOrdered(es[1..]);
      var rest := Keys(Emit(es[1..]));
      assert Keys(es) == [es[0].0] + Keys(es[1..]);
      if es[0].1.Some? {
        assert Keys(Emit(es)) == [es[0].0] + rest;
        Seqs.SubsequenceCons(es[0].0, rest, Keys(es[1..]));
      } else {
        assert Keys(Emit(es)) == rest;
        Seqs.SubsequenceSkip(es[0].0, rest, Keys(es[1..]));
      }
    }
  }

  /** With distinct keys, reading a key back gives exactly its entry. */
  lemma {:induction false} EmitLookup(es: seq<Entry>, i: nat)
    requires i < |es|
    requires Seqs.NoDuplicates(Keys(es))
    ensures Lookup(Emit(es), es[i].0) == es[i].1
    decreases |es|
  {
    var e := Emit(es);
    var rest := Emit(es[1..]);
    assert Seqs.NoDuplicates(Keys(es[1..])) by {
      forall a, b | 0 <= a < b < |es| - 1
        ensures Keys(es[1..])[a] != Keys(es[1..])[b]
      {
        assert Keys(es)[a + 1] != Keys(es)[b + 1];
      }
    }
    if i == 0 {
      if es[0].1.None? {
        assert e == rest;
        EmitAbsent(es[1..], es[0].0);
      }
    } else {
      EmitLookup(es[1..], i - 1);
      assert es[i].0 != es[0].0 by {
        assert Keys(es)[0] != Keys(es)[i];
      }
      if es[0].1.Some? {
        assert e == [(es[0].0, es[0].1.value)] + rest;
        assert e[0].0 != es[i].0 && e[1..] == rest;
        assert Lookup(e, es[i].0) == Lookup(rest, es[i].0);
      } else {
        assert e == rest;
      }
    }
  }

  /** A key no entry names is never emitted. */
  lemma {:induction false} EmitAbsent(es: seq<Entry>, key: string)
    requires key !in Keys(es)
    ensures Lookup(Emit(es), key) == None
    decreases |es|
  {
    if |es| > 0 {
      assert Keys(es) == [es[0].0] + Keys(es[1..]);
      EmitAbsent(es[1..], key);
      if es[0].1.Some? {
        var e := Emit(es);
        assert e[1..] == Emit(es[1..]);
      }
    }
  }

  /**
   * Each numeric key is present iff its parameter is non-null (0 included) and
   * carries its decimal text; `search` only when non-empty; `page_size` and
   * `page` always, defaulting to 16 and 1; any other key is never set.
   */
  lemma QueryContents(p: GetCarsParams, key: string)
    ensures var q := GetCarsQuery(p);
      && Lookup(q, "man_id") == NumberText(p.manId)
      && Lookup(q, "model_id") == NumberText(p.modelId)
      && Lookup(q, "fuel_type_id") == NumberText(p.fuelTypeId)
      && Lookup(q, "gear_type_id") == NumberText(p.gearTypeId)
      && Lookup(q, "prod_year_from") == NumberText(p.prodYearFrom)
      && Lookup(q, "prod_year_to") == NumberText(p.prodYearTo)
      && Lookup(q, "price_from") == NumberText(p.priceFrom)
      && Lookup(q, "price_to") == NumberText(p.priceTo)
      && (Lookup(q, "search").Some? <==> p.search.Some? && p.search.value != "")
      && (Lookup(q, "search").Some? ==> Lookup(q, "search") == p.search)
      && Lookup(q, "page_size") == Some(Strings.IntToString(p.pageSize.GetOr(DefaultPageSize)))
      && Lookup(q, "page") == Some(Strings.IntToString(p.page.GetOr(1)))
      && (key !in KeyOrder ==> Lookup(q, key) == None)
  {
    var es := Entries(p);
    KeyOrderDistinct();
    EmitLookup(es, 0);
    EmitLookup(es, 1);
    EmitLookup(es, 2);
    EmitLookup(es, 3);
    EmitLookup(es, 4);
    EmitLookup(es, 5);
    EmitLookup(es, 6);
    EmitLookup(es, 7);
    EmitLookup(es, 8);
    EmitLookup(es, 9);
    EmitLookup(es, 10);
    if key !in KeyOrder {
      EmitAbsent(es, key);
    }
  }

  lemma KeyOrderDistinct()
    ensures Seqs.NoDuplicates(KeyOrder)
  {
  }

  /** Keys appear in the fixed order, so each at most once. */
  lemma QueryKeysOrdered(p: GetCarsParams)
    ensures Seqs.IsSubsequence(Keys(GetCarsQuery(p)), KeyOrder)
  {
    EmitKeysOrdered(Entries(p));
  }

  /** `page_size` and `page` are the last two pairs. */
  lemma QueryEndsWithPaging(p: GetCarsParams)
    ensures var q := GetCarsQuery(p);
      && |q| >= 2
      && q[|q| - 2] == ("page_size", Strings.IntToString(p.pageSize.GetOr(DefaultPageSize)))
      && q[|q| - 1] == ("page", Strings.IntToString(p.page.GetOr(1)))
  {
    EmitAppend(FilterEntries(p), PagingEntries(p));
    var tail := PagingEntries(p);
    var last := tail[1..];
    assert last[1..] == [];
    assert Emit(last) == [(last[0].0, last[0].1.value)] + Emit([]);
    assert Emit(tail) == [(tail[0].0, tail[0].1.value)] + Emit(last);
  }

  /** The parameters a server reads back from the pairs. */
  function DecodeParams(q: Query): GetCarsParams
  {
    GetCarsParams(
      ParseNumber(Lookup(q, "man_id")),
      ParseNumber(Lookup(q, "model_id")),
      ParseNumber(Lookup(q, "fuel_type_id")),
      ParseNumber(Lookup(q, "gear_type_id")),
      ParseNumber(Lookup(q, "prod_year_from")),
      ParseNumber(Lookup(q, "prod_year_to")),
      ParseNumber(Lookup(q, "price_from")),
      ParseNumber(Lookup(q, "price_to")),
      Lookup(q, "search"),
      ParseNumber(Lookup(q, "page_size")),
      ParseNumber(Lookup(q, "page")))
  }

  function ParseNumber(text: Option<string>): Option<int>
  {
    if text.Some? then Strings.ParseInt(text.value) else None
  }

  /** `params` as `getCars` effectively sends it: empty search dropped, paging defaulted. */
  function Normalize(p: GetCarsParams): GetCarsParams
  {
    p.(search := if p.search.Some? && p.search.value != "" then p.search else None,
       pageSize := Some(p.pageSize.GetOr(DefaultPageSize)),
       page := Some(p.page.GetOr(1)))
  }

  lemma NumberTextRoundTrip(v: Option<int>)
    ensures ParseNumber(NumberText(v)) == v
  {
    if v.Some? {
      Strings.IntToStringRoundTrip(v.value);
    }
  }

  /** Serialisation loses nothing but an empty search and the unset paging values. */
  lemma QueryRoundTrip(p: GetCarsParams)
    ensures DecodeParams(GetCarsQuery(p)) == Normalize(p)
  {
    QueryContents(p, "");
    NumberTextRoundTrip(p.manId);
    NumberTextRoundTrip(p.modelId);
    NumberTextRoundTrip(p.fuelTypeId);
    NumberTextRoundTrip(p.gearTypeId);
    NumberTextRoundTrip(p.prodYearFrom);
    NumberTextRoundTrip(p.prodYearTo);
    NumberTextRoundTrip(p.priceFrom);
    NumberTextRoundTrip(p.priceTo);
    NumberTextRoundTrip(Some(p.pageSize.GetOr(DefaultPageSize)));
    NumberTextRoundTrip(Some(p.page.GetOr(1)));
  }

  /**
   * The query function of `useGetCars`: the caller's page is replaced by the
   * infinite query's page parameter, and the page size defaults to 16.
   */
  function QueryFn(params: GetCarsParams, pageParam: int): (q: Query)
    ensures Lookup(q, "page") == Some(Strings.IntToString(pageParam))
    ensures Lookup(q, "page_size") == Some(Strings.IntToString(params.pageSize.GetOr(DefaultPageSize)))
  {
    var sent := params.(pageSize := Some(params.pageSize.GetOr(DefaultPageSize)), page := Some(pageParam));
    QueryContents(sent, "");
    GetCarsQuery(sent)
  }

  /** `getNextPageParam`: the following page while one remains. */
  function NextPageParam(lastPage: CarsResponse): (r: Option<int>)
    ensures r.Some? <==> lastPage.page < lastPage.totalPages
    ensures r.Some? ==> r.value == lastPage.page + 1 && r.value <= lastPage.totalPages
  {
    if lastPage.page < lastPage.totalPages then Some(lastPage.page + 1) else None
  }

  /** What `useInfiniteQuery` holds: the fetched pages and the page parameter each was fetched with. */
  datatype InfiniteData = InfiniteData(pages: seq<CarsResponse>, pageParams: seq<int>)

  /** The data once the first page, fetched with `initialPageParam`, has arrived. */
  function FirstFetch(response: CarsResponse): (d: InfiniteData)
    ensures d.pages == [response] && d.pageParams == [InitialPageParam]
  {
    InfiniteData([response], [InitialPageParam])
  }
}
