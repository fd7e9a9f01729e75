/** Failure-compatible result types used throughout the zone engine. */
module Wrappers {

  datatype Option<+T> = None | Some(value: T)

  /** The outcome of an operation that returns only an error: Go's `error`, with `nil`
      written `Pass`. */
  datatype Outcome<+E> = Pass | Fail(error: E)
}

/** The errors the zone engine reports. Go returns formatted `error` values; the model keeps
    one constructor per distinct failure of dns/zonefile/chn.go. */
module ZoneErrors {

  datatype ZoneError =
    | EmptyField        // a required request field is blank after trimming
    | MissingPriority   // an MX request without a priority
    | UnsupportedType   // a type outside NS, MX, PTR, CNAME, TXT, A, A9
    | InvalidTTL        // the TTL is not an integer greater than zero
    | InvalidPriority   // the priority is not an integer greater than zero
    | InvalidAddress    // A or A9 data that fails its address check
    | DuplicateRecord   // Add found an equal record already in the zone
    | RecordNotFound    // Delete found no matching record
    | SectionNotFound   // an insertion found no section marker (dropped by Add)
    | InvalidSerial     // the line after the SOA line has no integer serial
    | WriteFailed       // writing the zone file failed
}
