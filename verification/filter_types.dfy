/** The filter record of the side panel and the catalogue rows it offers. */
module FilterTypes {
  import opened Options

  datatype Manufacturer = Manufacturer(manId: int, manufacturerName: string)

  datatype Model = Model(modelId: int, manId: int, modelName: string)

  datatype LookupItem = LookupItem(id: int, name: string)

  /** `FilterState`: nine nullable numbers, two id lists and the deals flag. */
  datatype FilterState = FilterState(
    priceMin: Option<int>,
    priceMax: Option<int>,
    manufacturerId: Option<int>,
    modelId: Option<int>,
    yearMin: Option<int>,
    yearMax: Option<int>,
    mileageMax: Option<int>,
    engineVolumeMin: Option<int>,
    engineVolumeMax: Option<int>,
    fuelTypeIds: seq<int>,
    gearTypeIds: seq<int>,
    dealsOnly: bool
  )

  /** `DEFAULT_FILTERS`: nothing selected. */
  const DefaultFilters := FilterState(None, None, None, None, None, None, None, None, None, [], [], false)

  /** A `{ min, max }` range prop. */
  datatype Range = Range(min: int, max: int)
}
