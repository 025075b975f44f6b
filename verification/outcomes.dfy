/**
 * What a check can end in. The Python checks either return a boolean or raise
 * one of the script's exception classes; each class becomes one constructor of
 * `ValidationError`, carrying the class's message and its `details` mapping
 * as typed fields. `NameError` is the error Python raises for the unbound
 * name in the per-item loop of the required-element check.
 */
module Outcomes {
  import opened FeedTree

  /** The `details` mappings the required-element check can attach. */
  datatype MissingDetails =
    | NoDetails                                              // `details=None`, read back as `{}`
    | MissingFields(missing: seq<string>)                    // `{"missing_elements": [...]}`
    | MissingItemFields(item: Element, missing: seq<string>) // `{"item": ..., "missing_elements": [...]}`

  /** One entry of the binary-content error's `locations` list. */
  datatype Location = Location(position: nat, character: string, context: string)

  datatype ValidationError =
    | MissingRssElement(message: string, details: MissingDetails)               // MissingRSSElementError
    | CdataMismatch(message: string, opens: nat, closes: nat, difference: nat)  // RSSValidationError raised by the CDATA check
    | BinaryContent(message: string, count: nat, locations: seq<Location>)     // BinaryContentError
    | NameError(name: string)                                                   // Python's NameError

  /** A check either returns a boolean or raises. */
  datatype Outcome = Returned(value: bool) | Raised(error: ValidationError)
}
