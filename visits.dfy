/** A stored visit, as the server writes it and the statistics endpoint reads it back. */
module Visits {
  import opened JsValues
  import opened Geolocation

  /**
   * One visit document. The session id is optional because records written before sessions
   * were introduced have none; times are milliseconds since the epoch.
   */
  datatype Visit = Visit(ip: string, sessionId: Option<string>, visitTime: int, geolocation: GeoRecord)

  /**
   * The schema's required-field check: a required string must be present and non-empty.
   * The visit time is always present here, so only the address and the session id can fail it.
   */
  predicate SatisfiesSchema(v: Visit)
  {
    v.ip != "" && TruthyString(v.sessionId)
  }
}
