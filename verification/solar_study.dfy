/** The SolarStudy entity: a photovoltaic sizing study for a client. */
module SolarStudyEntity {

  import opened Wrappers
  import opened Validation

  const Statuses: seq<string> := ["pending", "in_progress", "completed", "cancelled"]
  const DefaultStatus: string := "pending"

  /** Decimal columns are held in hundredths; `paybackPeriod` is a whole number of years. */
  datatype SolarStudy = SolarStudy(
    projectName: string,
    roofSurface: Option<int>,
    estimatedPower: Option<int>,
    annualProduction: Option<int>,
    estimatedCost: Option<int>,
    annualSavings: Option<int>,
    paybackPeriod: Option<int>,
    status: string,
    notes: Option<string>,
    createdAt: int,
    updatedAt: int,
    client: Option<nat>)

  /** An optional number is acceptable when absent or strictly positive. */
  predicate PositiveOrNull(v: Option<int>) {
    v.None? || v.value > 0
  }

  predicate Valid(s: SolarStudy) {
    && s.projectName != ""
    && PositiveOrNull(s.roofSurface)
    && PositiveOrNull(s.estimatedPower)
    && PositiveOrNull(s.annualProduction)
    && PositiveOrNull(s.estimatedCost)
    && PositiveOrNull(s.annualSavings)
    && PositiveOrNull(s.paybackPeriod)
    && s.status in Statuses
  }

  function Violations(s: SolarStudy): (vs: seq<Violation>)
    ensures |vs| == 0 <==> Valid(s)
    ensures Fields(vs) <= {"projectName", "roofSurface", "estimatedPower", "annualProduction",
                           "estimatedCost", "annualSavings", "paybackPeriod", "status"}
    ensures s.projectName == "" ==> Violation("projectName", Blank) in vs
    ensures !PositiveOrNull(s.roofSurface) ==> Violation("roofSurface", NotPositive) in vs
    ensures !PositiveOrNull(s.paybackPeriod) ==> Violation("paybackPeriod", NotPositive) in vs
    ensures s.status !in Statuses ==> Violation("status", NotAChoice) in vs
  {
    var vs :=
      NotBlank("projectName", s.projectName)
      + Positive("roofSurface", s.roofSurface)
      + Positive("estimatedPower", s.estimatedPower)
      + Positive("annualProduction", s.annualProduction)
      + Positive("estimatedCost", s.estimatedCost)
      + Positive("annualSavings", s.annualSavings)
      + Positive("paybackPeriod", s.paybackPeriod)
      + Choice("status", s.status, Statuses);
    FieldsWithin(vs, {"projectName", "roofSurface", "estimatedPower", "annualProduction",
                                                          "estimatedCost", "annualSavings", "paybackPeriod", "status"});
    vs
  }

  /** The `client_id` column is NOT NULL, and no validator checks it. */
  predicate Persistable(s: SolarStudy) {
    s.client.Some?
  }
}
