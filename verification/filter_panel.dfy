/**
 * The state rules of `FilterPanel`: the `updateFilter` reducer, Clear All,
 * Apply, the "Active" indicator, checkbox toggling, model narrowing, the year
 * option lists, the price text parser and the mileage slider's null-at-max rule.
 */
module FilterPanel {
  import opened Options
  import opened FilterTypes
  import Seqs
  import Strings

  /** One `updateFilter(key, value)` call: the key together with its new value. */
  datatype FilterUpdate =
    | SetPriceMin(priceMin: Option<int>)
    | SetPriceMax(priceMax: Option<int>)
    | SetManufacturerId(manufacturerId: Option<int>)
    | SetModelId(modelId: Option<int>)
    | SetYearMin(yearMin: Option<int>)
    | SetYearMax(yearMax: Option<int>)
    | SetMileageMax(mileageMax: Option<int>)
    | SetEngineVolumeMin(engineVolumeMin: Option<int>)
    | SetEngineVolumeMax(engineVolumeMax: Option<int>)
    | SetFuelTypeIds(fuelTypeIds: seq<int>)
    | SetGearTypeIds(gearTypeIds: seq<int>)
    | SetDealsOnly(dealsOnly: bool)

  /** The keys of `FilterState`. */
  datatype Field =
    | PriceMinField | PriceMaxField | ManufacturerIdField | ModelIdField
    | YearMinField | YearMaxField | MileageMaxField
    | EngineVolumeMinField | EngineVolumeMaxField
    | FuelTypeIdsField | GearTypeIdsField | DealsOnlyField

  function FieldOf(u: FilterUpdate): Field
  {
    match u
    case SetPriceMin(_) => PriceMinField
    case SetPriceMax(_) => PriceMaxField
    case SetManufacturerId(_) => ManufacturerIdField
    case SetModelId(_) => ModelIdField
    case SetYearMin(_) => YearMinField
    case SetYearMax(_) => YearMaxField
    case SetMileageMax(_) => MileageMaxField
    case SetEngineVolumeMin(_) => EngineVolumeMinField
    case SetEngineVolumeMax(_) => EngineVolumeMaxField
    case SetFuelTypeIds(_) => FuelTypeIdsField
    case SetGearTypeIds(_) => GearTypeIdsField
    case SetDealsOnly(_) => DealsOnlyField
  }

  /** `f` and `g` hold the same value in every field outside `changed`. */
  predicate AgreeOutside(f: FilterState, g: FilterState, changed: set<Field>)
  {
    && (PriceMinField !in changed ==> f.priceMin == g.priceMin)
    && (PriceMaxField !in changed ==> f.priceMax == g.priceMax)
    && (ManufacturerIdField !in changed ==> f.manufacturerId == g.manufacturerId)
    && (ModelIdField !in changed ==> f.modelId == g.modelId)
    && (YearMinField !in changed ==> f.yearMin == g.yearMin)
    && (YearMaxField !in changed ==> f.yearMax == g.yearMax)
    && (MileageMaxField !in changed ==> f.mileageMax == g.mileageMax)
    && (EngineVolumeMinField !in changed ==> f.engineVolumeMin == g.engineVolumeMin)
    && (EngineVolumeMaxField !in changed ==> f.engineVolumeMax == g.engineVolumeMax)
    && (FuelTypeIdsField !in changed ==> f.fuelTypeIds == g.fuelTypeIds)
    && (GearTypeIdsField !in changed ==> f.gearTypeIds == g.gearTypeIds)
    && (DealsOnlyField !in changed ==> f.dealsOnly == g.dealsOnly)
  }

  /** `f` holds the value the update carries, in the update's own field. */
  predicate Holds(f: FilterState, u: FilterUpdate)
  {
    match u
    case SetPriceMin(v) => f.priceMin == v
    case SetPriceMax(v) => f.priceMax == v
    case SetManufacturerId(v) => f.manufacturerId == v
    case SetModelId(v) => f.modelId == v
    case SetYearMin(v) => f.yearMin == v
    case SetYearMax(v) => f.yearMax == v
    case SetMileageMax(v) => f.mileageMax == v
    case SetEngineVolumeMin(v) => f.engineVolumeMin == v
    case SetEngineVolumeMax(v) => f.engineVolumeMax == v
    case SetFuelTypeIds(v) => f.fuelTypeIds == v
    case SetGearTypeIds(v) => f.gearTypeIds == v
    case SetDealsOnly(v) => f.dealsOnly == v
  }

  /**
   * `updateFilter`: `{ ...localFilters, [key]: value }`, and a manufacturer
   * change (even to the same value) also clears the model.
   */
  function UpdateFilter(f: FilterState, u: FilterUpdate): (r: FilterState)
    ensures Holds(r, u)
    ensures u.SetManufacturerId? ==> r.modelId == None
    ensures AgreeOutside(f, r, {FieldOf(u)} + (if u.SetManufacturerId? then {ModelIdField} else {}))
  {
    match u
    case SetPriceMin(v) => f.(priceMin := v)
    case SetPriceMax(v) => f.(priceMax := v)
    case SetManufacturerId(v) => f.(manufacturerId := v, modelId := None)
    case SetModelId(v) => f.(modelId := v)
    case SetYearMin(v) => f.(yearMin := v)
    case SetYearMax(v) => f.(yearMax := v)
    case SetMileageMax(v) => f.(mileageMax := v)
    case SetEngineVolumeMin(v) => f.(engineVolumeMin := v)
    case SetEngineVolumeMax(v) => f.(engineVolumeMax := v)
    case SetFuelTypeIds(v) => f.(fuelTypeIds := v)
    case SetGearTypeIds(v) => f.(gearTypeIds := v)
    case SetDealsOnly(v) => f.(dealsOnly := v)
  }

  /** Applying the same update twice is the same as applying it once. */
  lemma UpdateFilterIdempotent(f: FilterState, u: FilterUpdate)
    ensures UpdateFilter(UpdateFilter(f, u), u) == UpdateFilter(f, u)
  {
  }

  /** Re-selecting the current manufacturer still drops the chosen model. */
  lemma SameManufacturerClearsModel(f: FilterState)
    requires f.modelId.Some?
    ensures UpdateFilter(f, SetManufacturerId(f.manufacturerId)) != f
    ensures UpdateFilter(f, SetManufacturerId(f.manufacturerId)) == f.(modelId := None)
  {
  }

  /** The panel's own copy of the filters and whether the mobile drawer is open. */
  datatype Panel = Panel(local: FilterState, isOpen: bool)

  /** The new panel state and the filters handed to `onFilterChange`, if it is called. */
  datatype PanelStep = PanelStep(panel: Panel, emitted: Option<FilterState>)

  /** An `updateFilter` call from one of the controls. */
  function OnUpdate(p: Panel, u: FilterUpdate, applyOnChange: bool): (r: PanelStep)
    ensures r.panel.local == UpdateFilter(p.local, u) && r.panel.isOpen == p.isOpen
    ensures r.emitted.Some? <==> applyOnChange
    ensures r.emitted.Some? ==> r.emitted.value == r.panel.local
  {
    var updated := UpdateFilter(p.local, u);
    PanelStep(p.(local := updated), if applyOnChange then Some(updated) else None)
  }

  /** `handleClearAll`. */
  function ClearAll(p: Panel, applyOnChange: bool): (r: PanelStep)
    ensures r.panel.local == DefaultFilters && r.panel.isOpen == p.isOpen
    ensures r.emitted.Some? <==> applyOnChange
    ensures r.emitted.Some? ==> r.emitted.value == DefaultFilters
  {
    PanelStep(p.(local := DefaultFilters), if applyOnChange then Some(DefaultFilters) else None)
  }

  /** `handleApply`: hands over the local filters and closes the drawer. */
  function Apply(p: Panel): (r: PanelStep)
    ensures r.emitted == Some(p.local)
    ensures r.panel.local == p.local && !r.panel.isOpen
  {
    PanelStep(p.(isOpen := false), Some(p.local))
  }

  /** The effect that copies new `filters` props into the local state. */
  function SyncFromProps(p: Panel, filters: FilterState): (r: Panel)
    ensures r.local == filters && r.isOpen == p.isOpen
  {
    p.(local := filters)
  }

  /** `hasActiveFilters`: the "Active" marker is on exactly when the filters differ from the defaults. */
  function HasActiveFilters(f: FilterState): (r: bool)
    ensures r <==> f != DefaultFilters
  {
    || f.priceMin != None
    || f.priceMax != None
    || f.manufacturerId != None
    || f.modelId != None
    || f.yearMin != None
    || f.yearMax != None
    || f.mileageMax != None
    || f.engineVolumeMin != None
    || f.engineVolumeMax != None
    || |f.fuelTypeIds| > 0
    || |f.gearTypeIds| > 0
    || f.dealsOnly
  }

  /** After Clear All the marker is off (and the Clear All button disabled). */
  lemma ClearAllDeactivates(p: Panel, applyOnChange: bool)
    ensures !HasActiveFilters(ClearAll(p, applyOnChange).panel.local)
  {
  }

  /** Setting any nullable field to a value, a non-empty id list or the deals flag turns the marker on. */
  lemma UpdateActivates(f: FilterState, u: FilterUpdate)
    requires match u
             case SetFuelTypeIds(ids) => |ids| > 0
             case SetGearTypeIds(ids) => |ids| > 0
             case SetDealsOnly(b) => b
             case SetManufacturerId(v) => v.Some?
             case SetPriceMin(v) => v.Some?
             case SetPriceMax(v) => v.Some?
             case SetModelId(v) => v.Some?
             case SetYearMin(v) => v.Some?
             case SetYearMax(v) => v.Some?
             case SetMileageMax(v) => v.Some?
             case SetEngineVolumeMin(v) => v.Some?
             case SetEngineVolumeMax(v) => v.Some?
    ensures HasActiveFilters(UpdateFilter(f, u))
  {
  }

  /** `CheckboxGroup.handleToggle`: drop every occurrence of a selected id, append an unselected one. */
  function ToggleId(selected: seq<int>, id: int): (r: seq<int>)
    ensures id in selected ==> id !in r && Seqs.IsSubsequence(r, selected)
    ensures id !in selected ==> r == selected + [id]
    ensures forall x :: x != id ==> (x in r <==> x in selected)
    ensures id in r <==> id !in selected
    ensures id in selected ==> multiset(r) == multiset(selected)[id := 0]
  {
    if id in selected then
      Seqs.FilterCounts(selected, (i: int) => i != id);
      Seqs.Filter(selected, (i: int) => i != id)
    else selected + [id]
  }

  /** Ticking an unticked box and unticking it again restores the selection. */
  lemma ToggleTwiceRestores(selected: seq<int>, id: int)
    requires id !in selected
    ensures ToggleId(ToggleId(selected, id), id) == selected
  {
    var once := selected + [id];
    Seqs.FilterAll(selected, (i: int) => i != id);
    FilterDropsLast(selected, id);
  }

  lemma {:induction false} FilterDropsLast(s: seq<int>, id: int)
    requires id !in s
    ensures Seqs.Filter(s + [id], (i: int) => i != id) == Seqs.Filter(s, (i: int) => i != id)
    decreases |s|
  {
    if |s| == 0 {
      assert s + [id] == [id];
      assert [id][1..] == [];
    } else {
      assert (s + [id])[1..] == s[1..] + [id];
      FilterDropsLast(s[1..], id);
    }
  }

  /** `availableModels`: the models of the chosen manufacturer; none when it is null or 0. */
  function AvailableModels(models: seq<Model>, manufacturerId: Option<int>): (r: seq<Model>)
    ensures manufacturerId.None? || manufacturerId == Some(0) ==> r == []
    ensures manufacturerId.Some? && manufacturerId.value != 0 ==>
              && Seqs.IsSubsequence(r, models)
              && (forall m :: m in r <==> m in models && m.manId == manufacturerId.value)
              && (forall m :: multiset(r)[m] == if m.manId == manufacturerId.value then multiset(models)[m] else 0)
  {
    if manufacturerId.None? || manufacturerId.value == 0 then []
    else
      Seqs.FilterCounts(models, (m: Model) => m.manId == manufacturerId.value);
      Seqs.Filter(models, (m: Model) => m.manId == manufacturerId.value)
  }

  /** The model select is disabled while no manufacturer is chosen (null or 0). */
  function ModelSelectDisabled(f: FilterState): (r: bool)
    ensures r <==> f.manufacturerId.GetOr(0) == 0
  {
    f.manufacturerId.None? || f.manufacturerId.value == 0
  }

  /** A disabled model select has nothing to offer. */
  lemma DisabledModelSelectIsEmpty(f: FilterState, models: seq<Model>)
    requires ModelSelectDisabled(f)
    ensures AvailableModels(models, f.manufacturerId) == []
  {
  }

  /** The `YearSelect` options: `for (y = max; y >= min; y--)`. */
  method YearOptions(min: int, max: int) returns (years: seq<int>)
    ensures |years| == if min <= max then max - min + 1 else 0
    ensures forall k :: 0 <= k < |years| ==> years[k] == max - k
    ensures forall y :: y in years <==> min <= y <= max
  {
    years := [];
    var y := max;
    while y >= min
      invariant y <= max
      invariant min <= max ==> y >= min - 1
      invariant min > max ==> y == max
      invariant |years| == max - y
      invariant forall k :: 0 <= k < |years| ==> years[k] == max - k
      decreases y - min
    {
      years := years + [y];
      y := y - 1;
    }
    assert forall v :: v in years ==> exists k :: 0 <= k < |years| && years[k] == v;
    forall v | min <= v <= max
      ensures v in years
    {
      assert years[max - v] == v;
    }
  }

  /** The "From" list: capped at the chosen "To" year, else the range's end. */
  method FromYearOptions(f: FilterState, yearRange: Range) returns (years: seq<int>)
    ensures forall y :: y in years <==> yearRange.min <= y <= f.yearMax.GetOr(yearRange.max)
    ensures |years| == if yearRange.min <= f.yearMax.GetOr(yearRange.max)
                       then f.yearMax.GetOr(yearRange.max) - yearRange.min + 1 else 0
    ensures forall k :: 0 <= k < |years| ==> years[k] == f.yearMax.GetOr(yearRange.max) - k
  {
    years := YearOptions(yearRange.min, f.yearMax.GetOr(yearRange.max));
  }

  /** The "To" list: floored at the chosen "From" year, else the range's start. */
  method ToYearOptions(f: FilterState, yearRange: Range) returns (years: seq<int>)
    ensures forall y :: y in years <==> f.yearMin.GetOr(yearRange.min) <= y <= yearRange.max
    ensures |years| == if f.yearMin.GetOr(yearRange.min) <= yearRange.max
                       then yearRange.max - f.yearMin.GetOr(yearRange.min) + 1 else 0
    ensures forall k :: 0 <= k < |years| ==> years[k] == yearRange.max - k
  {
    years := YearOptions(f.yearMin.GetOr(yearRange.min), yearRange.max);
  }

  /** The select's `onChange`: the empty option means null. */
  function YearFromSelect(text: string): (r: Option<int>)
    ensures text == "" ==> r.None?
  {
    if text == "" then None else Strings.ParseInt(text)
  }

  /** Choosing a listed year reports that year: an option's text reads back as its value. */
  lemma YearSelectRoundTrip(y: int)
    ensures YearFromSelect(Strings.IntToString(y)) == Some(y)
  {
    Strings.IntToStringRoundTrip(y);
  }

  /** The price inputs' `parseInput`: keep the digits; null when none are left. */
  function ParsePriceInput(text: string): (r: Option<nat>)
    ensures r.None? <==> forall i :: 0 <= i < |text| ==> !Strings.IsDigit(text[i])
    ensures r.Some? ==> r.value == Strings.DecimalValue(Strings.DigitsOf(text))
  {
    var digits := Strings.DigitsOf(text);
    if |digits| == 0 then
      assert forall i :: 0 <= i < |text| ==> text[i] in text;
      None
    else
      assert digits[0] in text;
      Some(Strings.DecimalValue(digits))
  }

  /** Separators typed around the digits do not change the parsed price. */
  lemma PriceInputIgnoresSeparators(prefix: string, n: nat, suffix: string)
    requires forall i :: 0 <= i < |prefix| ==> !Strings.IsDigit(prefix[i])
    requires forall i :: 0 <= i < |suffix| ==> !Strings.IsDigit(suffix[i])
    ensures ParsePriceInput(prefix + Strings.NatToString(n) + suffix) == Some(n)
  {
    var digits := Strings.NatToString(n);
    var text := prefix + digits + suffix;
    Strings.DigitsOfSurrounded(prefix, digits, suffix);
    assert text[|prefix|] == digits[0];
    assert Strings.IsDigit(text[|prefix|]);
  }

  /** The price inputs show `v.toString()`; parsing that text gives back `|v|` (a minus sign is dropped). */
  lemma PriceInputRoundTrip(v: int)
    ensures ParsePriceInput(Strings.IntToString(v)) == Some(if v < 0 then -v else v)
  {
    var n: nat := if v < 0 then -v else v;
    var prefix := if v < 0 then "-" else "";
    assert Strings.IntToString(v) == prefix + Strings.NatToString(n) + "";
    PriceInputIgnoresSeparators(prefix, n, "");
  }

  /** The mileage slider's `onChange`: the range maximum means "no limit". */
  function MileageFromSlider(value: int, mileageRange: Range): (r: Option<int>)
    ensures r.None? <==> value == mileageRange.max
    ensures r.Some? ==> r.value == value
  {
    if value == mileageRange.max then None else Some(value)
  }

  /** The mileage slider's position: the stored limit, else the range maximum. */
  function MileageSliderValue(f: FilterState, mileageRange: Range): int
  {
    f.mileageMax.GetOr(mileageRange.max)
  }

  /** Whatever the slider is moved to, it is then drawn at that position. */
  lemma MileageSliderRoundTrip(f: FilterState, value: int, mileageRange: Range)
    ensures MileageSliderValue(UpdateFilter(f, SetMileageMax(MileageFromSlider(value, mileageRange))), mileageRange) == value
  {
  }

  /** The mileage caption reads "Any" when the stored limit is falsy: null or 0. */
  function MileageShowsAny(f: FilterState): (r: bool)
    ensures r <==> f.mileageMax.GetOr(0) == 0
  {
    f.mileageMax.None? || f.mileageMax.value == 0
  }

  /** Moving the slider to the maximum shows "Any"; so does moving it to 0. */
  lemma MileageAnyAfterSlide(f: FilterState, value: int, mileageRange: Range)
    ensures MileageShowsAny(UpdateFilter(f, SetMileageMax(MileageFromSlider(value, mileageRange))))
            <==> value == mileageRange.max || value == 0
  {
  }

  /** The panel's default ranges. */
  const DefaultPriceRange := Range(0, 200000)
  const DefaultMileageRange := Range(0, 500000)
  const DefaultEngineVolumeRange := Range(500, 6000)

  /** The year range defaults to 2000 up to the current year (a clock reading, so a parameter). */
  function DefaultYearRange(currentYear: int): Range
  {
    Range(2000, currentYear)
  }
}
