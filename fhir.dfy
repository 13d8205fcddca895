/** The slice of the HL7 FHIR R4 resource shapes that the pipeline reads.
    A field the source may find missing is an Option; a `code` whose `coding`
    list is absent or empty is an empty `codings` sequence, because indexing
    `coding[0]` then raises. */
module Fhir {
  import opened Wrappers

  /** A `Quantity`: its numeric value and its reported unit, both optional. */
  datatype Quantity = Quantity(value: Option<real>, unit: Option<string>)

  /** One entry of an observation's `component` list. */
  datatype Component = Component(codings: seq<Option<string>>, valueQuantity: Option<Quantity>)

  /** An `Observation` resource: the codes of its `code` element, an optional
      scalar `valueQuantity`, its `component` list (empty when absent), the
      raw `effectiveDateTime` text and the `subject` reference. */
  datatype Observation = Observation(
    codings: seq<Option<string>>,
    valueQuantity: Option<Quantity>,
    components: seq<Component>,
    effectiveDateTime: Option<string>,
    subject: Option<string>)

  /** A bundle entry's resource: an Observation, or a resource of another
      kind that may still carry a subject reference. */
  datatype Resource =
    | ObservationResource(obs: Observation)
    | OtherResource(subject: Option<string>)

  /** A bundle entry, whose `resource` may be missing. */
  datatype Entry = Entry(resource: Option<Resource>)

  /** `datetime.fromisoformat` applied after replacing "Z" by "+00:00":
      an instant on success, None where Python raises. Its internals are not
      modelled; every operation that parses a date receives it as a parameter. */
  type InstantParser = string -> Option<int>

  /** The first code of a `coding` list, None when the list is empty or its
      first coding has no code. */
  function PrimaryCode(codings: seq<Option<string>>): Option<string> {
    if |codings| == 0 then None else codings[0]
  }
}
