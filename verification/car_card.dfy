/**
 * The logic of the listing card `CarCard`: deal classification, the "New",
 * deal and savings badges, the kilometre label and the name fallbacks.
 */
module CarCard {
  import opened Options
  import opened CarsApi
  import Strings

  /** `LookupMap`: id-to-label tables handed to the card. */
  datatype LookupMap = LookupMap(
    fuelTypes: map<int, string>,
    gearTypes: map<int, string>,
    manufacturers: Option<map<int, string>>,
    models: Option<map<int, string>>
  )

  datatype DealScore = Great | Good | Fair

  /** A score can be computed only when the car carries both predictions. */
  predicate HasPrediction(car: Car)
  {
    car.hasPredictedPrice && car.predictedPrice.Some? && car.predMinPrice.Some?
  }

  /** `getDealScore`. */
  function GetDealScore(car: Car): (r: Option<DealScore>)
    ensures r.None? <==> !HasPrediction(car)
    ensures r == Some(Great) <==> HasPrediction(car) && car.priceUsd < car.predMinPrice.value
    ensures r == Some(Good) <==> HasPrediction(car) && car.predMinPrice.value <= car.priceUsd
                                 && car.priceUsd <= car.predictedPrice.value
    ensures r == Some(Fair) <==> HasPrediction(car) && car.predMinPrice.value <= car.priceUsd
                                 && car.predictedPrice.value < car.priceUsd
  {
    if !car.hasPredictedPrice || car.predictedPrice.None? || car.predMinPrice.None? then None
    else if car.priceUsd < car.predMinPrice.value then Some(Great)
    else if car.priceUsd <= car.predictedPrice.value then Some(Good)
    else Some(Fair)
  }

  function Rank(d: DealScore): nat
  {
    match d
    case Great => 2
    case Good => 1
    case Fair => 0
  }

  /** A lower asking price never makes the deal score worse. */
  lemma DealScoreMonotoneInPrice(car: Car, lower: int)
    requires lower <= car.priceUsd
    requires HasPrediction(car)
    ensures Rank(GetDealScore(car.(priceUsd := lower)).value) >= Rank(GetDealScore(car).value)
  {
  }

  /** The deal badge: shown for "great" and "good", never for "fair" or no score. */
  function ShowsDealBadge(car: Car): (r: bool)
    ensures r <==> GetDealScore(car) == Some(Great) || GetDealScore(car) == Some(Good)
  {
    var d := GetDealScore(car);
    d.Some? && d.value != Fair
  }

  /** A deal badge means the price is below the minimum prediction or at most the prediction. */
  lemma DealBadgeIff(car: Car)
    ensures ShowsDealBadge(car) <==>
              HasPrediction(car)
              && (car.priceUsd < car.predMinPrice.value || car.priceUsd <= car.predictedPrice.value)
  {
  }

  /** The "New" badge: shown iff the listing has at most 100 views. */
  function ShowsNewBadge(car: Car): (r: bool)
    ensures r <==> car.views <= 100
  {
    car.views <= 100
  }

  /** The badge is on at 100 views and off at 101, and once gone more views never bring it back. */
  lemma NewBadgeFades(car: Car, more: int)
    requires more >= car.views
    ensures ShowsNewBadge(car.(views := 100)) && !ShowsNewBadge(car.(views := 101))
    ensures ShowsNewBadge(car.(views := more)) ==> ShowsNewBadge(car)
    ensures !ShowsNewBadge(car) ==> !ShowsNewBadge(car.(views := more))
  {
  }

  /** The savings line: the amount under the predicted price, when there is one. */
  function Savings(car: Car): (r: Option<int>)
    ensures r.Some? <==> car.hasPredictedPrice && car.predictedPrice.Some?
                         && car.priceUsd < car.predictedPrice.value
    ensures r.Some? ==> r.value > 0 && car.priceUsd + r.value == car.predictedPrice.value
  {
    if car.hasPredictedPrice && car.predictedPrice.Some? && car.priceUsd < car.predictedPrice.value
    then Some(car.predictedPrice.value - car.priceUsd)
    else None
  }

  /** When both predictions exist, a savings line always comes with a deal badge. */
  lemma SavingsComeWithBadge(car: Car)
    requires Savings(car).Some? && car.predMinPrice.Some?
    ensures ShowsDealBadge(car)
  {
  }

  /** `(km / 1000).toFixed(0)` for a distance of at least 1000 km: rounded half up. */
  function RoundedThousands(km: int): (n: int)
    requires km >= 1000
    ensures n >= 1
    ensures 1000 * n - 500 <= km < 1000 * n + 500
  {
    (km + 500) / 1000
  }

  /** `formatKilometers`. */
  function FormatKilometers(km: int): (r: string)
    ensures |r| > 3 && r[|r| - 3..] == " km"
  {
    if km >= 1000 then Strings.IntToString(RoundedThousands(km)) + "k km"
    else Strings.IntToString(km) + " km"
  }

  /** The digits of `digits + suffix` are `digits` when the suffix has none. */
  lemma DigitsOfLabel(n: nat, suffix: string)
    requires forall i :: 0 <= i < |suffix| ==> !Strings.IsDigit(suffix[i])
    ensures Strings.DigitsOf(Strings.NatToString(n) + suffix) == Strings.NatToString(n)
  {
    Strings.DigitsOfConcat(Strings.NatToString(n), suffix);
    Strings.DigitsOfNoDigits(suffix);
    assert Strings.NatToString(n) + [] == Strings.NatToString(n);
  }

  /** From 1000 km on, the label reads "<n>k km" with `n` the nearest whole thousand. */
  lemma FormatKilometersThousands(km: int)
    requires km >= 1000
    ensures var s := FormatKilometers(km);
      && |s| > 4 && s[|s| - 4..] == "k km"
      && var n := Strings.DecimalValue(Strings.DigitsOf(s));
         1000 * n - 500 <= km < 1000 * n + 500
  {
    var n := RoundedThousands(km);
    var s := FormatKilometers(km);
    assert s == Strings.NatToString(n) + "k km";
    DigitsOfLabel(n, "k km");
    assert Strings.DecimalValue(Strings.DigitsOf(s)) == n;
  }

  /** Below 1000 km (and not negative), the label reads "<km> km" with the exact distance. */
  lemma FormatKilometersExact(km: int)
    requires 0 <= km < 1000
    ensures var s := FormatKilometers(km);
      && |s| > 3 && s[|s| - 3..] == " km" && s[|s| - 4] != 'k'
      && Strings.DecimalValue(Strings.DigitsOf(s)) == km
  {
    var s := FormatKilometers(km);
    var digits := Strings.NatToString(km);
    assert s == digits + " km";
    DigitsOfLabel(km, " km");
    assert s[|s| - 4] == digits[|digits| - 1];
  }

  /** `a ?? b ?? "Unknown"`. */
  function Coalesce(first: Option<string>, second: Option<string>): (r: string)
    ensures first.Some? ==> r == first.value
    ensures first.None? && second.Some? ==> r == second.value
    ensures first.None? && second.None? ==> r == "Unknown"
  {
    if first.Some? then first.value else if second.Some? then second.value else "Unknown"
  }

  /** `table?.[id]`: undefined when the table or the entry is missing. */
  function Entry(table: Option<map<int, string>>, id: Option<int>): (r: Option<string>)
    ensures r.Some? <==> table.Some? && id.Some? && id.value in table.value
    ensures r.Some? ==> r.value == table.value[id.value]
  {
    if table.Some? && id.Some? && id.value in table.value then Some(table.value[id.value]) else None
  }

  /** The name shown for the manufacturer: the car's own, else the lookup's, else "Unknown". */
  function ManufacturerName(car: Car, lookup: LookupMap): (r: string)
    ensures car.manufacturerName.Some? ==> r == car.manufacturerName.value
    ensures car.manufacturerName.None? ==> r == Entry(lookup.manufacturers, Some(car.manId)).GetOr("Unknown")
  {
    Coalesce(car.manufacturerName, Entry(lookup.manufacturers, Some(car.manId)))
  }

  /** The name shown for the model: the car's own, else the lookup's, else "Unknown". */
  function ModelName(car: Car, lookup: LookupMap): (r: string)
    ensures car.modelName.Some? ==> r == car.modelName.value
    ensures car.modelName.None? ==> r == Entry(lookup.models, Some(car.modelId)).GetOr("Unknown")
  {
    Coalesce(car.modelName, Entry(lookup.models, Some(car.modelId)))
  }

  /** The fuel label: the table's entry for the car's fuel id, else "Unknown". */
  function FuelLabel(car: Car, lookup: LookupMap): (r: string)
    ensures car.fuelTypeId.Some? && car.fuelTypeId.value in lookup.fuelTypes ==>
              r == lookup.fuelTypes[car.fuelTypeId.value]
    ensures car.fuelTypeId.None? || car.fuelTypeId.value !in lookup.fuelTypes ==> r == "Unknown"
  {
    Coalesce(Entry(Some(lookup.fuelTypes), car.fuelTypeId), None)
  }

  /** The gear label: the table's entry for the car's gear id, else "Unknown". */
  function GearLabel(car: Car, lookup: LookupMap): (r: string)
    ensures car.gearTypeId.Some? && car.gearTypeId.value in lookup.gearTypes ==>
              r == lookup.gearTypes[car.gearTypeId.value]
    ensures car.gearTypeId.None? || car.gearTypeId.value !in lookup.gearTypes ==> r == "Unknown"
  {
    Coalesce(Entry(Some(lookup.gearTypes), car.gearTypeId), None)
  }
}
