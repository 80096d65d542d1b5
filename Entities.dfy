/** The shapes of the data the bulk-import benchmark moves around. */
module Entities {

  /** One entity row to import: field name to field value. */
  type Row = map<string, string>

  /** One network-call-sized slice of rows; a row's position in it is its identity for the API. */
  type Bulk = seq<Row>

  /** In-bulk position to human-readable identity; defined for positions 0 .. |bulk| - 1. */
  type IdentityIndex = seq<string>

  /** The import API's decoded error response: message to the failed in-bulk positions,
      in the order the response lists its messages. */
  type ErrorReport = seq<(string, seq<nat>)>

  /** Identity of a failed entity to its error message. */
  type FailureReport = map<string, string>
}
