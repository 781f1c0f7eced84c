/** A project record as the dashboard sees it: one parsed CSV row, a map from
    column name to cell text. A column the row lacks reads as JavaScript
    `undefined`. */
module Records {
  import opened Wrappers
  import opened JsNumber

  type Record = map<string, string>

  const InterventionName := "intervention_name"
  const Country := "country"
  const City := "city"
  const BeginYearField := "begin_year"
  const EndYearField := "end_year"
  const NbsAreaField := "nbs_area"
  const TotalCostField := "total_cost"
  const PreviousAreaType := "previous_area_type"
  const NbsTypeField := "nbs_type"
  const SourcesOfFunding := "sources_of_funding"
  const EnvironmentalImpacts := "environmental_impacts"
  const EconomicImpacts := "economic_impacts"
  const Unknown := "Unknown"

  /** `d[field]`. */
  function Get(r: Record, field: string): Option<string> {
    if field in r then Some(r[field]) else None
  }

  /** JavaScript truthiness of a string-or-undefined value. */
  predicate Truthy(v: Option<string>) {
    v.Some? && v.value != ""
  }

  /** `v || "Unknown"`. */
  function OrUnknown(v: Option<string>): (s: string)
    ensures Truthy(v) ==> s == v.value
    ensures !Truthy(v) ==> s == Unknown
  {
    if Truthy(v) then v.value else Unknown
  }

  /** `+d[field]`. */
  function NumField(r: Record, field: string): Num {
    ToNumberOpt(Get(r, field))
  }

  /** `${v}` in a template literal: `undefined` prints as "undefined". */
  function Show(v: Option<string>): string {
    match v
    case Some(s) => s
    case None => "undefined"
  }
}
